/** The ARM7 context as the C++ keeps it: a live register file, the registers of the modes that
    are not current in saved banks. Every operation is proved to be the corresponding one on the
    physical register file. */
module Arm7Core {
  import opened Options
  import opened Words
  import opened Arm7Isa
  import opened Arm7Step

  type Seq16 = s: seq<Word> | |s| == 16 witness seq(16, _ => 0)
  type Seq7 = s: seq<Word> | |s| == 7 witness seq(7, _ => 0)
  type Seq5 = s: seq<Word> | |s| == 5 witness seq(5, _ => 0)
  type Seq2 = s: seq<Word> | |s| == 2 witness seq(2, _ => 0)

  class Context {
    var r: Seq16
    var cpsr: Psr
    var common: Seq5
    var fiq: Seq7
    var usr: Seq2
    var irq: Seq2
    var svc: Seq2
    var abt: Seq2
    var und: Seq2
    var spsr: Spsrs
    var bus: Bus
    var irqLine: bool
    var fiqLine: bool
    var halted: bool
    var instructions: nat
    var irqExceptions: nat
    var fiqExceptions: nat

    ghost predicate Valid()
      reads this`cpsr
    {
      ValidMode(cpsr.mode)
    }

    /** Where physical register k lives right now. */
    ghost function Cell(k: nat): Word
      requires k < 30
      reads this`r, this`cpsr, this`common, this`fiq, this`usr, this`irq, this`svc, this`abt, this`und
    {
      var mode := cpsr.mode;
      if k < 8 then r[k]
      else if k < 13 then if mode == FIQ then common[k - 8] else r[k]
      else if k < 15 then if mode in {USR, SYS} then r[k] else usr[k - 13]
      else if k < 22 then if mode == FIQ then r[k - 7] else fiq[k - 15]
      else if k < 24 then if mode == IRQ then r[k - 9] else irq[k - 22]
      else if k < 26 then if mode == SVC then r[k - 11] else svc[k - 24]
      else if k < 28 then if mode == ABT then r[k - 13] else abt[k - 26]
      else if mode == UND then r[k - 15] else und[k - 28]
    }

    /** The physical register file the live registers and the banks represent together. */
    ghost function PhysicalFile(): (f: File)
      reads this
      ensures forall k :: 0 <= k < 30 ==> f[k] == Cell(k)
    {
      seq(30, k requires 0 <= k < 30 reads this => Cell(k))
    }

    ghost function Abstract(): Machine
      reads this
    {
      Machine(PhysicalFile(), r[15], cpsr, spsr, bus, irqLine, fiqLine, halted)
    }

    constructor (bus: Bus, pc: Word)
      ensures Valid() && cpsr == PsrOf(0xD3) && r[15] == AlignTo(pc, 4) && !halted
      ensures PhysicalFile() == seq(30, _ => 0)
    {
      r := seq(16, _ => 0)[15 := AlignTo(pc, 4)];
      cpsr := PsrOf(0xD3);
      common, fiq := seq(5, _ => 0), seq(7, _ => 0);
      usr, irq, svc, abt, und := seq(2, _ => 0), seq(2, _ => 0), seq(2, _ => 0), seq(2, _ => 0), seq(2, _ => 0);
      spsr := Spsrs(PsrOf(0), PsrOf(0), PsrOf(0), PsrOf(0), PsrOf(0));
      this.bus := bus;
      irqLine, fiqLine, halted := false, false, false;
      instructions, irqExceptions, fiqExceptions := 0, 0, 0;
    }

    // ----- Banks

    method SaveBank(mode: nat)
      requires ValidMode(mode)
      modifies this`common, this`fiq, this`usr, this`irq, this`svc, this`abt, this`und
      ensures fiq == if mode == FIQ then r[8..15] else old(fiq)
      ensures common == if mode == FIQ then old(common) else r[8..13]
      ensures usr == if mode in {USR, SYS} then r[13..15] else old(usr)
      ensures irq == if mode == IRQ then r[13..15] else old(irq)
      ensures svc == if mode == SVC then r[13..15] else old(svc)
      ensures abt == if mode == ABT then r[13..15] else old(abt)
      ensures und == if mode == UND then r[13..15] else old(und)
    {
      if mode == FIQ {
        for i := 0 to 7
          modifies this`fiq
          invariant forall j :: 0 <= j < i ==> fiq[j] == r[8 + j]
        {
          fiq := fiq[i := r[8 + i]];
        }
        return;
      }
      for i := 0 to 5
        modifies this`common
        invariant forall j :: 0 <= j < i ==> common[j] == r[8 + j]
      {
        common := common[i := r[8 + i]];
      }
      var pair := [r[13], r[14]];
      assert pair == r[13..15];
      if mode == IRQ { irq := pair; }
      else if mode == SVC { svc := pair; }
      else if mode == ABT { abt := pair; }
      else if mode == UND { und := pair; }
      else { usr := pair; }
    }

    method LoadBank(mode: nat)
      requires ValidMode(mode)
      modifies this`r
      ensures r == if mode == FIQ then old(r)[..8] + fiq + [old(r)[15]]
                   else old(r)[..8] + common + (if mode == IRQ then irq else if mode == SVC then svc else if mode == ABT then abt
                                                else if mode == UND then und else usr) + [old(r)[15]]
    {
      if mode == FIQ {
        for i := 0 to 7
          invariant r[..8] == old(r)[..8] && r[15] == old(r)[15]
          invariant forall j :: 0 <= j < i ==> r[8 + j] == fiq[j]
        {
          r := r[8 + i := fiq[i]];
        }
        return;
      }
      for i := 0 to 5
        invariant r[..8] == old(r)[..8] && r[15] == old(r)[15]
        invariant forall j :: 0 <= j < i ==> r[8 + j] == common[j]
      {
        r := r[8 + i := common[i]];
      }
      var pair := if mode == IRQ then irq else if mode == SVC then svc else if mode == ABT then abt
                  else if mode == UND then und else usr;
      r := r[13 := pair[0]][14 := pair[1]];
    }

    /** save_bank, load_bank and the new mode together leave the physical file as it was. */
    method SwitchMode(next: Psr)
      requires Valid() && ValidMode(next.mode)
      modifies this`r, this`cpsr, this`common, this`fiq, this`usr, this`irq, this`svc, this`abt, this`und
      ensures Valid() && Abstract() == old(Abstract()).(cpsr := next)
    {
      var oldMode := cpsr.mode;
      if next.mode != oldMode {
        SaveBank(oldMode);
        LoadBank(next.mode);
      }
      cpsr := next;
      assert r[15] == old(r[15]);
      assert forall k :: 0 <= k < 8 ==> Cell(k) == old(Cell(k));
      assert forall k :: 8 <= k < 15 ==> Cell(k) == old(Cell(k));
      assert forall k :: 15 <= k < 22 ==> Cell(k) == old(Cell(k));
      assert forall k :: 22 <= k < 30 ==> Cell(k) == old(Cell(k));
      SameFile(old(PhysicalFile()));
    }

    // ----- Register and status access

    lemma LiveIsView(i: Reg)
      requires Valid()
      ensures View(PhysicalFile(), cpsr.mode, i) == r[i]
    {
    }

    method WriteLive(i: Reg, v: Word)
      requires Valid()
      modifies this`r
      ensures Valid() && Abstract() == SetLive(old(Abstract()), i, v)
    {
      r := r[i := v];
      SameFile(Update(old(PhysicalFile()), cpsr.mode, i, v));
    }

    /** A file with the same cells is the same file. */
    lemma SameFile(f: File)
      requires forall k :: 0 <= k < 30 ==> f[k] == Cell(k)
      ensures PhysicalFile() == f
    {
    }

    method WritePc(v: Word)
      requires Valid()
      modifies this`r
      ensures Valid() && Abstract() == old(Abstract()).(pc := v)
    {
      r := r[15 := v];
      SameFile(old(PhysicalFile()));
    }

    method Fetched(i: nat, pc: Word) returns (v: Word)
      requires Valid() && i < 16
      ensures v == ReadReg(Abstract(), i, pc)
    {
      if i == 15 { return Plus(pc, 8); }
      LiveIsView(i);
      v := r[i];
    }

    /** read_user_reg: the User bank from any mode. */
    method FetchedUser(i: nat, pc: Word) returns (v: Word)
      requires Valid() && i < 16
      ensures v == if i == 15 then Plus(pc, 8) else View(Abstract().file, USR, i)
    {
      if i == 15 { return Plus(pc, 8); }
      if i < 8 { return r[i]; }
      if i < 13 {
        v := if cpsr.mode == FIQ then common[i - 8] else r[i];
      } else {
        v := if cpsr.mode in {USR, SYS} then r[i] else usr[i - 13];
      }
    }

    /** write_user_reg: exactly the User entry, from any mode. */
    method WriteUser(i: Reg, v: Word)
      requires Valid()
      modifies this`r, this`common, this`usr
      ensures Valid() && r[15] == old(r[15])
      ensures PhysicalFile() == Update(old(PhysicalFile()), USR, i, v)
    {
      if i < 8 {
        r := r[i := v];
      } else if i < 13 {
        if cpsr.mode == FIQ { common := common[i - 8 := v]; } else { r := r[i := v]; }
      } else {
        if cpsr.mode in {USR, SYS} { r := r[i := v]; } else { usr := usr[i - 13 := v]; }
      }
      SameFile(Update(old(PhysicalFile()), USR, i, v));
    }

    /** arm7_set_cpsr */
    method WriteCpsr(value: Psr, fields: nat)
      requires Valid()
      modifies this
      ensures Valid() && Abstract() == SetCpsr(old(Abstract()), value, fields)
    {
      var next := ApplyPsrFields(cpsr, value, fields);
      if !ValidMode(next.mode) {
        next := next.(mode := cpsr.mode);
      }
      SwitchMode(next);
    }

    method CurrentSpsr() returns (p: Psr)
      requires Valid()
      ensures p == GetSpsr(Abstract())
    {
      var mode := cpsr.mode;
      if mode == FIQ { return spsr.fiq; }
      if mode == IRQ { return spsr.irq; }
      if mode == SVC { return spsr.svc; }
      if mode == ABT { return spsr.abt; }
      if mode == UND { return spsr.und; }
      return cpsr;
    }

    method WriteSpsr(value: Psr, fields: nat)
      requires Valid()
      modifies this`spsr
      ensures Valid() && Abstract() == SetSpsr(old(Abstract()), value, fields)
    {
      var mode := cpsr.mode;
      if mode == FIQ { spsr := spsr.(fiq := ApplyPsrFields(spsr.fiq, value, fields)); }
      else if mode == IRQ { spsr := spsr.(irq := ApplyPsrFields(spsr.irq, value, fields)); }
      else if mode == SVC { spsr := spsr.(svc := ApplyPsrFields(spsr.svc, value, fields)); }
      else if mode == ABT { spsr := spsr.(abt := ApplyPsrFields(spsr.abt, value, fields)); }
      else if mode == UND { spsr := spsr.(und := ApplyPsrFields(spsr.und, value, fields)); }
      SameFile(old(PhysicalFile()));
    }

    method WriteFlags(p: Psr)
      requires Valid() && p.mode == cpsr.mode
      modifies this`cpsr
      ensures Valid() && Abstract() == old(Abstract()).(cpsr := p)
    {
      cpsr := p;
      SameFile(old(PhysicalFile()));
    }

    method WriteBus(b: Bus)
      requires Valid()
      modifies this`bus
      ensures Valid() && Abstract() == old(Abstract()).(bus := b)
    {
      bus := b;
      SameFile(old(PhysicalFile()));
    }

    method Halt()
      requires Valid()
      modifies this`halted
      ensures Valid() && Abstract() == old(Abstract()).(halted := true)
    {
      halted := true;
      SameFile(old(PhysicalFile()));
    }

    /** The end of enter_exception: SPSR, status, return address and vector, in the handler's mode. */
    method EnterHandler(mode: Bits5, interrupted: Psr, resume: Word, vector: Word, maskFiq: bool)
      requires Valid() && mode in {FIQ, IRQ} && cpsr.mode == mode
      modifies this
      ensures Valid() && Abstract() == HandlerEntry(old(Abstract()), mode, interrupted, resume, vector, maskFiq)
    {
      hide Index, Cell;
      if mode == FIQ { spsr := spsr.(fiq := interrupted); }
      else if mode == IRQ { spsr := spsr.(irq := interrupted); }
      SameFile(old(PhysicalFile()));
      WriteFlags(interrupted.(mode := mode, t := false, i := true, f := interrupted.f || maskFiq));
      WriteLive(14, Plus(resume, 4));
      WritePc(vector);
    }

    /** enter_exception */
    method TakeException(mode: Bits5, vector: Word, maskFiq: bool)
      requires Valid() && mode in {FIQ, IRQ}
      modifies this
      ensures Valid() && Abstract() == EnterException(old(Abstract()), mode, vector, maskFiq)
    {
      hide AlignTo, HandlerEntry, PhysicalFile;
      var oldCpsr := cpsr;
      var resume := AlignTo(r[15], if oldCpsr.t then 2 else 4);
      SwitchMode(oldCpsr.(mode := mode));
      EnterHandler(mode, oldCpsr, resume, vector, maskFiq);
    }

    // ----- Instructions

    method Finish(pc: Word) returns (status: Status)
      requires Valid()
      modifies this`r
      ensures Valid() && Step(Abstract(), status) == Advance(old(Abstract()), pc)
    {
      WritePc(Plus(pc, 4));
      status := Executed;
    }

    method Refuse(why: Status) returns (status: Status)
      requires Valid()
      modifies this`halted
      ensures Valid() && Step(Abstract(), status) == Stop(old(Abstract()), why)
    {
      Halt();
      status := why;
    }

    method DoBranchExchange(pc: Word, op: Word) returns (status: Status)
      requires Valid()
      modifies this
      ensures Valid() && Step(Abstract(), status) == BranchExchange(old(Abstract()), pc, op)
    {
      hide AlignTo, RegField;
      var target := Fetched(RegField(op, 0), pc);
      WriteFlags(cpsr.(t := target % 2 == 1));
      WritePc(AlignTo(target, if target % 2 == 1 then 2 else 4));
      status := Executed;
    }

    method DoMoveFromPsr(pc: Word, op: Word) returns (status: Status)
      requires Valid()
      modifies this
      ensures Valid() && Step(Abstract(), status) == MoveFromPsr(old(Abstract()), pc, op)
    {
      hide AlignTo, RegField, Flag, PsrWord, Index;
      var p := cpsr;
      if Flag(op, 22) { p := CurrentSpsr(); }
      var rd, value := RegField(op, 12), PsrWord(p);
      if rd == 15 {
        WritePc(AlignTo(value, 4));
        return Executed;
      }
      WriteLive(rd, value);
      status := Finish(pc);
    }

    method DoMoveToPsr(pc: Word, op: Word) returns (status: Status)
      requires Valid()
      modifies this
      ensures Valid() && Step(Abstract(), status) == MoveToPsr(old(Abstract()), pc, op)
    {
      hide RegField, Flag, PsrOf, Immediate, Index, SetCpsr, SetSpsr;
      var value := Immediate(op);
      if !Flag(op, 25) { value := Fetched(RegField(op, 0), pc); }
      if Flag(op, 22) { WriteSpsr(PsrOf(value), RegField(op, 16)); } else { WriteCpsr(PsrOf(value), RegField(op, 16)); }
      status := Finish(pc);
    }

    method DoMultiply(pc: Word, op: Word) returns (status: Status)
      requires Valid()
      modifies this
      ensures Valid() && Step(Abstract(), status) == Multiply(old(Abstract()), pc, op)
    {
      hide RegField, Flag, Index, MultiplyAdd;
      var rd := RegField(op, 16);
      var x := Fetched(RegField(op, 0), pc);
      var y := Fetched(RegField(op, 8), pc);
      var z: Word := 0;
      if Flag(op, 21) { z := Fetched(RegField(op, 12), pc); }
      var result := MultiplyAdd(x, y, z);
      if rd == 15 {
        status := Refuse(Unsupported);
        return;
      }
      WriteLive(rd, result);
      if Flag(op, 20) { WriteFlags(cpsr.(n := Negative(result), z := result == 0)); }
      status := Finish(pc);
    }

    method Load(rd: nat, value: Word)
      requires Valid() && rd < 16
      modifies this`r
      ensures Valid() && Abstract() == PutLoaded(old(Abstract()), rd, value)
    {
      if rd == 15 { WritePc(AlignTo(value, 4)); } else { WriteLive(rd, value); }
    }

    method Complete(pc: Word, op: Word, indexed: Word) returns (status: Status)
      requires Valid()
      modifies this
      ensures Valid() && Step(Abstract(), status) == FinishTransfer(old(Abstract()), pc, op, indexed)
    {
      hide RegField, Flag, Index;
      var rn := RegField(op, 16);
      if !Flag(op, 24) || Flag(op, 21) {
        if rn == 15 {
          status := Refuse(Unsupported);
          return;
        }
        WriteLive(rn, indexed);
      }
      if Flag(op, 20) && RegField(op, 12) == 15 { return Executed; }
      status := Finish(pc);
    }

    method DoHalfTransfer(pc: Word, op: Word) returns (status: Status)
      requires Valid()
      modifies this
      ensures Valid() && Step(Abstract(), status) == HalfTransfer(old(Abstract()), pc, op)
    {
      hide RegField, Flag, Field, Index, Bus8, Bus16, Store16, Indexed, SignExtendByte, SignExtendHalf, PutLoaded, FinishTransfer, Wrap;
      var rn, rd, kind := RegField(op, 16), RegField(op, 12), Field(op, 5, 2);
      var offset := Wrap(RegField(op, 8) * 16 + RegField(op, 0));
      if !Flag(op, 22) { offset := Fetched(RegField(op, 0), pc); }
      var base := Fetched(rn, pc);
      var indexed := Indexed(op, base, offset);
      var address := if Flag(op, 24) then indexed else base;
      if Flag(op, 20) {
        if kind == 0 { status := Refuse(Unsupported); return; }
        var got := if kind == 2 then Bus8(bus, address) else Bus16(bus, address);
        if got.None? { status := Refuse(Fault); return; }
        Load(rd, if kind == 1 then got.value else if kind == 2 then SignExtendByte(got.value) else SignExtendHalf(got.value));
      } else {
        if kind != 1 { status := Refuse(Unsupported); return; }
        var value := Fetched(rd, pc);
        var stored := Store16(bus, address, value);
        if stored.None? { status := Refuse(Fault); return; }
        WriteBus(stored.value);
      }
      status := Complete(pc, op, indexed);
    }

    method DoWordTransfer(pc: Word, op: Word) returns (status: Status)
      requires Valid()
      modifies this
      ensures Valid() && Step(Abstract(), status) == WordTransfer(old(Abstract()), pc, op)
    {
      hide RegField, Flag, Field, Index, Bus8, Bus32, Store8, Store32, Indexed, PutLoaded, FinishTransfer, ShiftValue, Rotr, AlignTo, Wrap;
      var rn, rd, byte := RegField(op, 16), RegField(op, 12), Flag(op, 22);
      var offset := Wrap(op % 0x1000);
      if Flag(op, 25) {
        if Flag(op, 4) { status := Refuse(Unsupported); return; }
        var rm := Fetched(RegField(op, 0), pc);
        offset := ShiftValue(rm, Field(op, 5, 2), Field(op, 7, 5), cpsr.c, true).value;
      }
      var base := Fetched(rn, pc);
      var indexed := Indexed(op, base, offset);
      var address := if Flag(op, 24) then indexed else base;
      if Flag(op, 20) {
        var got := if byte then Bus8(bus, address) else Bus32(bus, AlignTo(address, 4));
        if got.None? { status := Refuse(Fault); return; }
        Load(rd, if byte then got.value else Rotr(got.value, address % 4 * 8));
      } else {
        var value := Fetched(rd, pc);
        var stored := if byte then Store8(bus, address, value) else Store32(bus, AlignTo(address, 4), value);
        if stored.None? { status := Refuse(Fault); return; }
        WriteBus(stored.value);
      }
      status := Complete(pc, op, indexed);
    }

    method DoBranch(pc: Word, op: Word) returns (status: Status)
      requires Valid()
      modifies this
      ensures Valid() && Step(Abstract(), status) == Branch(old(Abstract()), pc, op)
    {
      hide Flag, Index, Wrap;
      var offset := op % 0x100_0000;
      var disp := 4 * (if offset < 0x80_0000 then offset else offset - 0x100_0000);
      if Flag(op, 24) { WriteLive(14, Plus(pc, 4)); }
      WritePc(Wrap(pc + 8 + disp));
      status := Executed;
    }

    method DecodeOperand2(pc: Word, op: Word) returns (sh: Shifted)
      requires Valid()
      ensures sh == Operand2(Abstract(), pc, op)
    {
      hide Flag, Field, RegField, Index, ShiftValue, Immediate;
      if Flag(op, 25) {
        if RegField(op, 8) == 0 { return Shifted(op % 0x100, cpsr.c, false); }
        return Shifted(Immediate(op), Negative(Immediate(op)), true);
      }
      var value := Fetched(RegField(op, 0), pc);
      if !Flag(op, 4) { return ShiftValue(value, Field(op, 5, 2), Field(op, 7, 5), cpsr.c, true); }
      var amount := Fetched(RegField(op, 8), pc);
      sh := ShiftValue(value, Field(op, 5, 2), amount % 0x100, cpsr.c, false);
    }

    method DoDataProcessing(pc: Word, op: Word) returns (status: Status)
      requires Valid()
      modifies this
      ensures Valid() && Step(Abstract(), status) == DataProcessing(old(Abstract()), pc, op)
    {
      hide Flag, RegField, Index, Alu, Operand2, AlignTo, SetCpsr, GetSpsr;
      var opcode, s, rd := RegField(op, 21), Flag(op, 20), RegField(op, 12);
      var test := 8 <= opcode <= 11;
      var sh := DecodeOperand2(pc, op);
      var a := Fetched(RegField(op, 16), pc);
      var f := Alu(opcode, a, sh, cpsr);
      if s || test { WriteFlags(SetFlags(cpsr, f)); }
      if test {
        status := Finish(pc);
      } else if rd == 15 {
        if s {
          var saved := CurrentSpsr();
          WriteCpsr(saved, 0xF);
        }
        WritePc(AlignTo(f.result, 4));
        status := Executed;
      } else {
        WriteLive(rd, f.result);
        status := Finish(pc);
      }
    }

    // ----- Block transfers

    /** The store loop of STM. */
    method StoreLoop(pc: Word, list: nat, start: Word, user: bool) returns (done: bool)
      requires Valid()
      modifies this`bus
      ensures Valid()
      ensures var (b, ok) := StoreList(old(Abstract()), old(bus), pc, list, 0, start, user);
              Abstract() == old(Abstract()).(bus := b) && done == ok
    {
      hide InList, Index, Store32, Plus;
      var a := start;
      for i := 0 to 16
        invariant Valid() && Abstract() == old(Abstract()).(bus := bus)
        invariant StoreList(old(Abstract()), old(bus), pc, list, 0, start, user)
                  == StoreList(old(Abstract()), bus, pc, list, i, a, user)
      {
        if InList(list, i) {
          var value := Plus(pc, 12);
          if i < 15 {
            if user { value := FetchedUser(i, pc); } else { value := Fetched(i, pc); }
          }
          var stored := Store32(bus, a, value);
          if stored.None? { return false; }
          WriteBus(stored.value);
          a := Plus(a, 4);
        }
      }
      done := true;
    }

    /** The load loop of LDM; the PC is kept aside. */
    method LoadLoop(list: nat, start: Word, user: bool) returns (pcValue: Option<Word>, done: bool)
      requires Valid()
      modifies this`r, this`common, this`usr
      ensures Valid()
      ensures var l := LoadList(old(PhysicalFile()), if user then USR else cpsr.mode, bus, list, 0, start);
              Abstract() == old(Abstract()).(file := l.file) && pcValue == l.pcValue && done == l.done
    {
      hide InList, Index, Bus32, Plus;
      var a := start;
      ghost var mode := if user then USR else cpsr.mode;
      pcValue := None;
      for i := 0 to 16
        invariant Valid() && Abstract() == old(Abstract()).(file := PhysicalFile())
        invariant pcValue.Some? ==> i == 16
        invariant LoadList(old(PhysicalFile()), mode, bus, list, 0, start)
                  == if pcValue.Some? then Loaded(PhysicalFile(), pcValue, true)
                     else LoadList(PhysicalFile(), mode, bus, list, i, a)
      {
        if InList(list, i) {
          var got := Bus32(bus, a);
          if got.None? { return None, false; }
          if i == 15 {
            pcValue := got;
          } else if user {
            WriteUser(i, got.value);
          } else {
            WriteLive(i, got.value);
          }
          a := Plus(a, 4);
        }
      }
      done := true;
    }

    method DoBlockTransfer(pc: Word, b: Block) returns (status: Status)
      requires Valid() && b.rn < 16
      modifies this
      ensures Valid() && Step(Abstract(), status) == BlockTransfer(old(Abstract()), pc, b)
    {
      hide InList, Index, LoadList, StoreList, StartAddress, NewBase, CountFrom, AlignTo, SetCpsr, GetSpsr;
      if b.rn == 15 || CountFrom(b.list, 0) == 0 { status := Refuse(Unsupported); return; }
      var exceptionReturn := b.caret && b.load && InList(b.list, 15);
      var user := b.caret && !exceptionReturn;
      if exceptionReturn && !HasSpsr(cpsr.mode) { status := Refuse(Unsupported); return; }
      LiveIsView(b.rn);
      var base := r[b.rn];
      var start := StartAddress(b, base);
      if b.load {
        var pcValue, done := LoadLoop(b.list, start, user);
        if !done { status := Refuse(Fault); return; }
        if b.writeback { WriteLive(b.rn, NewBase(b, base)); }
        if exceptionReturn && pcValue.Some? {
          var saved := CurrentSpsr();
          WriteCpsr(saved, 0xF);
          WritePc(AlignTo(pcValue.value, if cpsr.t then 2 else 4));
          status := Executed;
        } else if pcValue.Some? {
          WritePc(AlignTo(pcValue.value, 4));
          status := Executed;
        } else {
          status := Finish(pc);
        }
      } else {
        var done := StoreLoop(pc, b.list, start, user);
        if !done { status := Refuse(Fault); return; }
        if b.writeback { WriteLive(b.rn, NewBase(b, base)); }
        status := Finish(pc);
      }
    }

    // ----- The step

    method DoExecute(pc: Word, op: Word) returns (status: Status)
      requires Valid()
      modifies this
      ensures Valid() && Step(Abstract(), status) == Execute(old(Abstract()), pc, op)
    {
      hide Decode, BranchExchange, MoveFromPsr, MoveToPsr, Multiply, HalfTransfer, WordTransfer, BlockTransfer, Branch, DataProcessing, Stop;
      match Decode(op)
      case BX => status := DoBranchExchange(pc, op);
      case MRS => status := DoMoveFromPsr(pc, op);
      case MSR => status := DoMoveToPsr(pc, op);
      case MUL => status := DoMultiply(pc, op);
      case HALF => status := DoHalfTransfer(pc, op);
      case SINGLE => status := DoWordTransfer(pc, op);
      case BLOCK => status := DoBlockTransfer(pc, BlockOf(op));
      case BRANCH => status := DoBranch(pc, op);
      case DATA => status := DoDataProcessing(pc, op);
      case UNKNOWN => status := Refuse(Unsupported);
    }

    /** arm7_step on the live file and banks is the step of the physical register file. */
    method StepOne() returns (status: Status)
      requires Valid()
      modifies this
      ensures Valid() && Step(Abstract(), status) == StepOnce(old(Abstract()))
    {
      hide Execute, EnterException, Bus32, ConditionPassed, AlignTo;
      if halted { return Halted; }
      if fiqLine && !cpsr.f {
        TakeException(FIQ, 0x1C, true);
        CountEvent(false, true);
        return Executed;
      }
      if irqLine && !cpsr.i {
        TakeException(IRQ, 0x18, false);
        CountEvent(true, false);
        return Executed;
      }
      if cpsr.t { status := Refuse(Unsupported); return; }
      var pc := AlignTo(r[15], 4);
      var op := Bus32(bus, pc);
      if op.None? { status := Refuse(Fault); return; }
      CountEvent(false, false);
      if !ConditionPassed(cpsr, op.value / 0x1000_0000) {
        status := Finish(pc);
      } else {
        status := DoExecute(pc, op.value);
      }
    }

    method CountEvent(isIrq: bool, isFiq: bool)
      requires Valid()
      modifies this`instructions, this`irqExceptions, this`fiqExceptions
      ensures Valid() && Abstract() == old(Abstract())
    {
      if isIrq { irqExceptions := irqExceptions + 1; }
      else if isFiq { fiqExceptions := fiqExceptions + 1; }
      else { instructions := instructions + 1; }
      SameFile(old(PhysicalFile()));
    }

    /** arm7_run */
    method Run(maxInstructions: nat) returns (executed: nat, last: Status)
      requires Valid()
      modifies this
      ensures Valid()
      ensures Abstract() == RunSteps(old(Abstract()), maxInstructions)
      ensures executed == RunCount(old(Abstract()), maxInstructions) && last == RunStatus(old(Abstract()), maxInstructions)
    {
      hide StepOnce;
      executed, last := 0, Executed;
      while executed < maxInstructions && !halted
        invariant Valid() && executed <= maxInstructions
        invariant last == Executed
        invariant RunSteps(old(Abstract()), maxInstructions) == RunSteps(Abstract(), maxInstructions - executed)
        invariant RunCount(old(Abstract()), maxInstructions) == executed + RunCount(Abstract(), maxInstructions - executed)
        invariant RunStatus(old(Abstract()), maxInstructions) == RunStatus(Abstract(), maxInstructions - executed)
      {
        last := StepOne();
        if last != Executed { return; }
        executed := executed + 1;
      }
    }
  }
}

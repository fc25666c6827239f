/** One step of the ARM7 core, on the physical register file. */
module Arm7Step {
  import opened Options
  import opened Words
  import opened Arm7Isa

  datatype Spsrs = Spsrs(fiq: Psr, irq: Psr, svc: Psr, abt: Psr, und: Psr)

  /** Everything the core's context holds except the three event counters. */
  datatype Machine = Machine(file: File, pc: Word, cpsr: Psr, spsr: Spsrs, bus: Bus,
                             irqLine: bool, fiqLine: bool, halted: bool)

  datatype Status = Executed | Halted | Unsupported | Fault

  datatype Step = Step(m: Machine, status: Status)

  // ----- Registers and status

  function Mode(m: Machine): Bits5 { m.cpsr.mode }

  function Live(m: Machine, i: Reg): Word { View(m.file, Mode(m), i) }

  function SetLive(m: Machine, i: Reg, v: Word): Machine {
    m.(file := Update(m.file, Mode(m), i, v))
  }

  /** read_reg: R15 reads as the instruction's address plus 8. */
  function ReadReg(m: Machine, i: nat, pc: Word): Word
    requires i < 16
  {
    if i == 15 then Plus(pc, 8) else Live(m, i)
  }

  function GetSpsr(m: Machine): Psr {
    if Mode(m) == FIQ then m.spsr.fiq else if Mode(m) == IRQ then m.spsr.irq
    else if Mode(m) == SVC then m.spsr.svc else if Mode(m) == ABT then m.spsr.abt
    else if Mode(m) == UND then m.spsr.und else m.cpsr
  }

  function SetSpsr(m: Machine, value: Psr, fields: nat): Machine {
    var p := ApplyPsrFields(GetSpsr(m), value, fields);
    if Mode(m) == FIQ then m.(spsr := m.spsr.(fiq := p))
    else if Mode(m) == IRQ then m.(spsr := m.spsr.(irq := p))
    else if Mode(m) == SVC then m.(spsr := m.spsr.(svc := p))
    else if Mode(m) == ABT then m.(spsr := m.spsr.(abt := p))
    else if Mode(m) == UND then m.(spsr := m.spsr.(und := p))
    else m
  }

  /** arm7_set_cpsr: a mode field that names no mode is ignored. The register file stays as it is. */
  function SetCpsr(m: Machine, value: Psr, fields: nat): Machine {
    var next := ApplyPsrFields(m.cpsr, value, fields);
    m.(cpsr := if ValidMode(next.mode) then next else next.(mode := Mode(m)))
  }

  function AlignTo(a: Word, n: Word): Word
    requires n > 0
  {
    a - a % n
  }

  function Advance(m: Machine, pc: Word): Step { Step(m.(pc := Plus(pc, 4)), Executed) }

  function Stop(m: Machine, status: Status): Step { Step(m.(halted := true), status) }

  // ----- Exceptions

  /** What entry leaves in the handler's mode: the resume address plus 4 in R14, the interrupted
      status in the SPSR, ARM state with IRQ masked, and the vector in the PC. */
  function HandlerEntry(m: Machine, mode: Bits5, interrupted: Psr, resume: Word, vector: Word, maskFiq: bool): Machine {
    var spsr := if mode == FIQ then m.spsr.(fiq := interrupted)
                else if mode == IRQ then m.spsr.(irq := interrupted) else m.spsr;
    m.(file := Update(m.file, mode, 14, Plus(resume, 4)), spsr := spsr, pc := vector,
       cpsr := interrupted.(mode := mode, t := false, i := true, f := interrupted.f || maskFiq))
  }

  function EnterException(m: Machine, mode: Bits5, vector: Word, maskFiq: bool): Machine {
    HandlerEntry(m.(cpsr := m.cpsr.(mode := mode)), mode, m.cpsr, AlignTo(m.pc, if m.cpsr.t then 2 else 4), vector, maskFiq)
  }

  // ----- Instruction fields

  function Field(op: Word, shift: nat, width: nat): nat { op / Pow2(shift) % Pow2(width) }

  function Flag(op: Word, bit: nat): bool { op / Pow2(bit) % 2 == 1 }

  function RegField(op: Word, shift: nat): (i: nat)
    ensures i < 16
  {
    op / Pow2(shift) % 16
  }

  // ----- Instructions

  function BranchExchange(m: Machine, pc: Word, op: Word): Step {
    var target := ReadReg(m, RegField(op, 0), pc);
    var thumb := target % 2 == 1;
    Step(m.(cpsr := m.cpsr.(t := thumb), pc := AlignTo(target, if thumb then 2 else 4)), Executed)
  }

  function MoveFromPsr(m: Machine, pc: Word, op: Word): Step {
    var rd := RegField(op, 12);
    var value := PsrWord(if Flag(op, 22) then GetSpsr(m) else m.cpsr);
    if rd == 15 then Step(m.(pc := AlignTo(value, 4)), Executed) else Advance(SetLive(m, rd, value), pc)
  }

  function Immediate(op: Word): Word {
    Rotr(op % 0x100, 2 * RegField(op, 8))
  }

  function MoveToPsr(m: Machine, pc: Word, op: Word): Step {
    var value := PsrOf(if Flag(op, 25) then Immediate(op) else ReadReg(m, RegField(op, 0), pc));
    var fields := RegField(op, 16);
    Advance(if Flag(op, 22) then SetSpsr(m, value, fields) else SetCpsr(m, value, fields), pc)
  }

  function MultiplyAdd(x: Word, y: Word, z: Word): Word { Wrap(x * y + z) }

  function Multiply(m: Machine, pc: Word, op: Word): Step {
    var rd := RegField(op, 16);
    var addend := if Flag(op, 21) then ReadReg(m, RegField(op, 12), pc) else 0;
    var result := MultiplyAdd(ReadReg(m, RegField(op, 0), pc), ReadReg(m, RegField(op, 8), pc), addend);
    if rd == 15 then Stop(m, Unsupported)
    else
      var m1 := SetLive(m, rd, result);
      Advance(if Flag(op, 20) then m1.(cpsr := m1.cpsr.(n := Negative(result), z := result == 0)) else m1, pc)
  }

  /** The load half shared by the single transfers: into a register, or into the PC. */
  function PutLoaded(m: Machine, rd: nat, value: Word): Machine
    requires rd < 16
  {
    if rd == 15 then m.(pc := AlignTo(value, 4)) else SetLive(m, rd, value)
  }

  /** Base writeback and the PC, after the access itself succeeded. */
  function FinishTransfer(m: Machine, pc: Word, op: Word, indexed: Word): Step {
    var rn, rd := RegField(op, 16), RegField(op, 12);
    var writes := !Flag(op, 24) || Flag(op, 21);
    if writes && rn == 15 then Stop(m, Unsupported)
    else
      var m1 := if writes then SetLive(m, rn, indexed) else m;
      if Flag(op, 20) && rd == 15 then Step(m1, Executed) else Advance(m1, pc)
  }

  function Indexed(op: Word, base: Word, offset: Word): Word {
    if Flag(op, 23) then Plus(base, offset) else Minus(base, offset)
  }

  function SignExtendByte(w: Word): Word { if w % 0x100 < 0x80 then w % 0x100 else w % 0x100 + 0xFFFF_FF00 }

  function SignExtendHalf(w: Word): Word { if w % 0x1_0000 < 0x8000 then w % 0x1_0000 else w % 0x1_0000 + 0xFFFF_0000 }

  function HalfTransfer(m: Machine, pc: Word, op: Word): Step {
    var rn, rd, kind := RegField(op, 16), RegField(op, 12), Field(op, 5, 2);
    var offset := if Flag(op, 22) then Wrap(RegField(op, 8) * 16 + RegField(op, 0)) else ReadReg(m, RegField(op, 0), pc);
    var base := ReadReg(m, rn, pc);
    var indexed := Indexed(op, base, offset);
    var address := if Flag(op, 24) then indexed else base;
    if Flag(op, 20) then
      if kind == 0 then Stop(m, Unsupported)
      else
        match (if kind == 2 then Bus8(m.bus, address) else Bus16(m.bus, address))
        case None => Stop(m, Fault)
        case Some(w) =>
          var value := if kind == 1 then w else if kind == 2 then SignExtendByte(w) else SignExtendHalf(w);
          FinishTransfer(PutLoaded(m, rd, value), pc, op, indexed)
    else if kind != 1 then Stop(m, Unsupported)
    else
      match Store16(m.bus, address, ReadReg(m, rd, pc))
      case None => Stop(m, Fault)
      case Some(bus) => FinishTransfer(m.(bus := bus), pc, op, indexed)
  }

  function WordTransfer(m: Machine, pc: Word, op: Word): Step {
    var rn, rd, byte := RegField(op, 16), RegField(op, 12), Flag(op, 22);
    if Flag(op, 25) && Flag(op, 4) then Stop(m, Unsupported)
    else
      var offset := if Flag(op, 25)
                    then ShiftValue(ReadReg(m, RegField(op, 0), pc), Field(op, 5, 2), Field(op, 7, 5), m.cpsr.c, true).value
                    else Wrap(op % 0x1000);
      var base := ReadReg(m, rn, pc);
      var indexed := Indexed(op, base, offset);
      var address := if Flag(op, 24) then indexed else base;
      var aligned := AlignTo(address, 4);
      if Flag(op, 20) then
        match (if byte then Bus8(m.bus, address) else Bus32(m.bus, aligned))
        case None => Stop(m, Fault)
        case Some(w) =>
          // An unaligned word load rotates the aligned word.
          FinishTransfer(PutLoaded(m, rd, if byte then w else Rotr(w, address % 4 * 8)), pc, op, indexed)
      else
        var value := ReadReg(m, rd, pc);
        match (if byte then Store8(m.bus, address, value) else Store32(m.bus, aligned, value))
        case None => Stop(m, Fault)
        case Some(bus) => FinishTransfer(m.(bus := bus), pc, op, indexed)
  }

  // ----- Block transfers

  predicate InList(list: nat, i: nat) { list / Pow2(i) % 2 == 1 }

  /** Number of listed registers from i up. */
  function CountFrom(list: nat, i: nat): (n: nat)
    ensures n <= if i < 16 then 16 - i else 0
    decreases 16 - i
  {
    if i >= 16 then 0 else (if InList(list, i) then 1 else 0) + CountFrom(list, i + 1)
  }

  /** What a block store writes for register i. */
  function StoredValue(m: Machine, pc: Word, i: nat, user: bool): Word
    requires i < 16
  {
    if i == 15 then Plus(pc, 12) else if user then View(m.file, USR, i) else Live(m, i)
  }

  /** The store loop from register i at address a: the bus it leaves, and whether it finished. */
  function StoreList(m: Machine, bus: Bus, pc: Word, list: nat, i: nat, a: Word, user: bool): (Bus, bool)
    decreases 16 - i
  {
    if i >= 16 then (bus, true)
    else if !InList(list, i) then StoreList(m, bus, pc, list, i + 1, a, user)
    else
      match Store32(bus, a, StoredValue(m, pc, i, user))
      case None => (bus, false)
      case Some(bus') => StoreList(m, bus', pc, list, i + 1, Plus(a, 4), user)
  }

  /** What the load loop leaves: the register file, the loaded PC value if any, whether it finished. */
  datatype Loaded = Loaded(file: File, pcValue: Option<Word>, done: bool)

  function LoadList(file: File, mode: nat, bus: Bus, list: nat, i: nat, a: Word): Loaded
    decreases 16 - i
  {
    if i >= 16 then Loaded(file, None, true)
    else if !InList(list, i) then LoadList(file, mode, bus, list, i + 1, a)
    else
      match Bus32(bus, a)
      case None => Loaded(file, None, false)
      case Some(w) =>
        if i == 15 then Loaded(file, Some(w), true)
        else LoadList(Update(file, mode, i, w), mode, bus, list, i + 1, Plus(a, 4))
  }

  /** The decoded form of LDM/STM. */
  datatype Block = Block(pre: bool, up: bool, caret: bool, writeback: bool, load: bool, rn: nat, list: nat)

  function BlockOf(op: Word): Block {
    Block(Flag(op, 24), Flag(op, 23), Flag(op, 22), Flag(op, 21), Flag(op, 20), RegField(op, 16), op % 0x1_0000)
  }

  function StartAddress(b: Block, base: Word): Word {
    var count := CountFrom(b.list, 0);
    if b.up then Plus(base, if b.pre then 4 else 0)
    else Minus(base, if b.pre then 4 * count else 4 * (count - 1))
  }

  function NewBase(b: Block, base: Word): Word {
    if b.up then Plus(base, 4 * CountFrom(b.list, 0)) else Minus(base, 4 * CountFrom(b.list, 0))
  }

  function BlockTransfer(m: Machine, pc: Word, b: Block): Step
    requires b.rn < 16
  {
    if b.rn == 15 || CountFrom(b.list, 0) == 0 then Stop(m, Unsupported)
    else
      var exceptionReturn := b.caret && b.load && InList(b.list, 15);
      var user := b.caret && !exceptionReturn;
      if exceptionReturn && !HasSpsr(Mode(m)) then Stop(m, Unsupported)
      else
        var base := Live(m, b.rn);
        var start := StartAddress(b, base);
        if b.load then
          var l := LoadList(m.file, if user then USR else Mode(m), m.bus, b.list, 0, start);
          var m1 := m.(file := l.file);
          if !l.done then Stop(m1, Fault)
          else
            var m2 := if b.writeback then SetLive(m1, b.rn, NewBase(b, base)) else m1;
            match l.pcValue
            case None => Advance(m2, pc)
            case Some(w) =>
              if exceptionReturn then
                var m3 := SetCpsr(m2, GetSpsr(m2), 0xF);
                Step(m3.(pc := AlignTo(w, if m3.cpsr.t then 2 else 4)), Executed)
              else Step(m2.(pc := AlignTo(w, 4)), Executed)
        else
          var (bus, done) := StoreList(m, m.bus, pc, b.list, 0, start, user);
          var m1 := m.(bus := bus);
          if !done then Stop(m1, Fault)
          else Advance(if b.writeback then SetLive(m1, b.rn, NewBase(b, base)) else m1, pc)
  }

  function Branch(m: Machine, pc: Word, op: Word): Step {
    var offset := op % 0x100_0000;
    var disp := 4 * (if offset < 0x80_0000 then offset else offset - 0x100_0000);
    var m1 := if Flag(op, 24) then SetLive(m, 14, Plus(pc, 4)) else m;
    Step(m1.(pc := Wrap(pc + 8 + disp)), Executed)
  }

  // ----- Data processing

  function Operand2(m: Machine, pc: Word, op: Word): Shifted {
    if Flag(op, 25) then
      if RegField(op, 8) == 0 then Shifted(op % 0x100, m.cpsr.c, false)
      else Shifted(Immediate(op), Negative(Immediate(op)), true)
    else
      var value := ReadReg(m, RegField(op, 0), pc);
      if !Flag(op, 4) then ShiftValue(value, Field(op, 5, 2), Field(op, 7, 5), m.cpsr.c, true)
      else ShiftValue(value, Field(op, 5, 2), ReadReg(m, RegField(op, 8), pc) % 0x100, m.cpsr.c, false)
  }

  /** Result and flags of an opcode; logical ones take C from the shifter and keep V. */
  function Alu(opcode: nat, a: Word, sh: Shifted, p: Psr): Flagged {
    var b := sh.value;
    if opcode == 0x2 || opcode == 0xA then SubWithBorrow(a, b, false)
    else if opcode == 0x3 then SubWithBorrow(b, a, false)
    else if opcode == 0x4 || opcode == 0xB then AddWithCarry(a, b, false)
    else if opcode == 0x5 then AddWithCarry(a, b, p.c)
    else if opcode == 0x6 then SubWithBorrow(a, b, !p.c)
    else if opcode == 0x7 then SubWithBorrow(b, a, !p.c)
    else
      var result: Word :=
        if opcode == 0x0 || opcode == 0x8 then And(a, b)
        else if opcode == 0x1 || opcode == 0x9 then Xor(a, b)
        else if opcode == 0xC then Or(a, b)
        else if opcode == 0xD then b
        else if opcode == 0xE then And(a, Not(b))
        else Not(b);
      Flagged(result, Negative(result), result == 0, if sh.valid then sh.carry else p.c, p.v)
  }

  function DataProcessing(m: Machine, pc: Word, op: Word): Step {
    var opcode, s, rd := RegField(op, 21), Flag(op, 20), RegField(op, 12);
    var test := 8 <= opcode <= 11;
    var f := Alu(opcode, ReadReg(m, RegField(op, 16), pc), Operand2(m, pc, op), m.cpsr);
    var m1 := if s || test then m.(cpsr := SetFlags(m.cpsr, f)) else m;
    if test then Advance(m1, pc)
    else if rd == 15 then
      var m2 := if s then SetCpsr(m1, GetSpsr(m1), 0xF) else m1;
      Step(m2.(pc := AlignTo(f.result, 4)), Executed)
    else Advance(SetLive(m1, rd, f.result), pc)
  }

  // ----- Decoding, in the order the C++ tests the encodings

  datatype Kind = BX | MRS | MSR | MUL | HALF | SINGLE | BLOCK | BRANCH | DATA | UNKNOWN

  function Decode(op: Word): Kind {
    if op / 0x10 % 0x100_0000 == 0x12FFF1 then BX
    else if Field(op, 23, 5) == 2 && Field(op, 16, 6) == 0xF && op % 0x1000 == 0 then MRS
    else if Field(op, 26, 2) == 0 && Field(op, 23, 2) == 2 && Field(op, 20, 2) == 2 && RegField(op, 12) == 0xF then MSR
    else if Field(op, 22, 6) == 0 && RegField(op, 4) == 9 then MUL
    else if Field(op, 25, 3) == 0 && Flag(op, 7) && Flag(op, 4) && Field(op, 5, 2) != 0 then HALF
    else if Field(op, 26, 2) == 1 then SINGLE
    else if Field(op, 25, 3) == 4 then BLOCK
    else if Field(op, 25, 3) == 5 then BRANCH
    else if Field(op, 26, 2) == 0 then DATA
    else UNKNOWN
  }

  function Execute(m: Machine, pc: Word, op: Word): Step {
    match Decode(op)
    case BX => BranchExchange(m, pc, op)
    case MRS => MoveFromPsr(m, pc, op)
    case MSR => MoveToPsr(m, pc, op)
    case MUL => Multiply(m, pc, op)
    case HALF => HalfTransfer(m, pc, op)
    case SINGLE => WordTransfer(m, pc, op)
    case BLOCK => BlockTransfer(m, pc, BlockOf(op))
    case BRANCH => Branch(m, pc, op)
    case DATA => DataProcessing(m, pc, op)
    case UNKNOWN => Stop(m, Unsupported)
  }

  predicate TakesFiq(m: Machine) { m.fiqLine && !m.cpsr.f }

  predicate TakesIrq(m: Machine) { !TakesFiq(m) && m.irqLine && !m.cpsr.i }

  /** arm7_step */
  function StepOnce(m: Machine): Step {
    if m.halted then Step(m, Halted)
    else if TakesFiq(m) then Step(EnterException(m, FIQ, 0x1C, true), Executed)
    else if TakesIrq(m) then Step(EnterException(m, IRQ, 0x18, false), Executed)
    else if m.cpsr.t then Stop(m, Unsupported)
    else
      var pc := AlignTo(m.pc, 4);
      match Bus32(m.bus, pc)
      case None => Stop(m, Fault)
      case Some(op) =>
        if !ConditionPassed(m.cpsr, op / 0x1000_0000) then Advance(m, pc) else Execute(m, pc, op)
  }

  /** arm7_run: up to n steps, ending early on any status but Executed. */
  function RunSteps(m: Machine, n: nat): Machine
    decreases n
  {
    if n == 0 || m.halted then m
    else
      var s := StepOnce(m);
      if s.status != Executed then s.m else RunSteps(s.m, n - 1)
  }

  /** How many of them execute. */
  function RunCount(m: Machine, n: nat): (count: nat)
    ensures count <= n
    decreases n
  {
    if n == 0 || m.halted then 0
    else
      var s := StepOnce(m);
      if s.status != Executed then 0 else 1 + RunCount(s.m, n - 1)
  }

  /** The status of the last step; Executed if there was none. */
  function RunStatus(m: Machine, n: nat): Status
    decreases n
  {
    if n == 0 || m.halted then Executed
    else
      var s := StepOnce(m);
      if s.status != Executed then s.status else RunStatus(s.m, n - 1)
  }

  /** A run that ends early ends in a halted machine or with the status of the step that refused. */
  lemma {:induction false} RunEnds(m: Machine, n: nat)
    ensures RunCount(m, n) < n ==> RunSteps(m, n).halted || RunStatus(m, n) != Executed
    ensures RunCount(m, n) == n ==> RunStatus(m, n) == Executed
    decreases n
  {
    hide StepOnce;
    if n > 0 && !m.halted && StepOnce(m).status == Executed {
      RunEnds(StepOnce(m).m, n - 1);
    }
  }
}

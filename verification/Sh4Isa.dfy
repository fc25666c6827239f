/** What one SH-4 instruction means, as a function from processor state to processor state.
    Arithmetic instructions are given by the integer they compute, not by the carry and
    borrow tests of the interpreter; `Sh4Core` proves the interpreter's code equal to this. */
module Sh4Isa {
  import opened Words
  import opened Memory

  type Regs = s: seq<Word> | |s| == 16 witness seq(16, _ => 0)
  type RegIndex = i: nat | i < 16

  /** The status register: the four bits arithmetic uses, and everything else. */
  datatype Sr = Sr(t: bool, s: bool, q: bool, m: bool, rest: Word)

  datatype Cpu = Cpu(r: Regs, sr: Sr, pr: Word, mach: Word, macl: Word, mem: Mem)

  datatype Transfer = Jump | Call | Return | CondJump

  /** What the run loop has to do after an instruction. */
  datatype Signal =
    | Next
    | Branch(target: Word, taken: bool)
    | Slot(transfer: Transfer, target: Word, returnPc: Word, taken: bool)
    | Sleep
    | Trap(imm: nat)
    | Illegal
    | Unmodelled

  datatype Step = Step(cpu: Cpu, signal: Signal)

  // ----- Fields and immediates

  function FieldN(op: Half): RegIndex { op / 0x100 % 0x10 }

  function FieldM(op: Half): RegIndex { op / 0x10 % 0x10 }

  function Sext8(v: nat): Word {
    if v % 0x100 < 0x80 then v % 0x100 else v % 0x100 + 0xFFFF_FF00
  }

  function Sext12(v: nat): Word {
    if v % 0x1000 < 0x800 then v % 0x1000 else v % 0x1000 + 0xFFFF_F000
  }

  function Sext16(v: nat): Word {
    if v % 0x1_0000 < 0x8000 then v % 0x1_0000 else v % 0x1_0000 + 0xFFFF_0000
  }

  function SignedHalf(v: Half): int {
    if v < 0x8000 then v else v - 0x1_0000
  }

  // ----- State updates

  function WithReg(cpu: Cpu, n: RegIndex, v: Word): Cpu {
    cpu.(r := cpu.r[n := v])
  }

  function WithT(cpu: Cpu, t: bool): Cpu {
    cpu.(sr := cpu.sr.(t := t))
  }

  // ----- Arithmetic with carry, division steps, multiply-accumulate

  /** Rn + Rm + T; T becomes the carry out. */
  function Addc(cpu: Cpu, n: RegIndex, m: RegIndex): Cpu {
    var sum := cpu.r[n] + cpu.r[m] + Bit(cpu.sr.t);
    WithT(WithReg(cpu, n, Wrap(sum)), sum >= TWO_32)
  }

  /** minuend - Rm - T into Rn; T becomes the borrow. */
  function Borrowing(cpu: Cpu, n: RegIndex, minuend: Word, m: RegIndex): Cpu {
    var diff := minuend - cpu.r[m] - Bit(cpu.sr.t);
    WithT(WithReg(cpu, n, Wrap(diff)), diff < 0)
  }

  function Subc(cpu: Cpu, n: RegIndex, m: RegIndex): Cpu { Borrowing(cpu, n, cpu.r[n], m) }

  function Negc(cpu: Cpu, n: RegIndex, m: RegIndex): Cpu { Borrowing(cpu, n, 0, m) }

  /** T shifts in at the bottom, bit 31 shifts out into T. */
  function Rotcl(cpu: Cpu, n: RegIndex): Cpu {
    var wide := 2 * cpu.r[n] + Bit(cpu.sr.t);
    WithT(WithReg(cpu, n, Wrap(wide)), wide >= TWO_32)
  }

  function Rotcr(cpu: Cpu, n: RegIndex): Cpu {
    WithT(WithReg(cpu, n, cpu.r[n] / 2 + 0x8000_0000 * Bit(cpu.sr.t)), cpu.r[n] % 2 == 1)
  }

  /** One step of non-restoring division: the 33-bit two's complement number Q:rn, shifted
      left with T coming in, moves by the signed divisor M:d in the direction that Q and M
      select. The result is the new low word and the new Q. */
  function DivideStep(rn: Word, t: bool, q: bool, m: bool, d: Word): (Word, bool) {
    var shifted, signedD := 2 * rn + Bit(t), d - TWO_32 * Bit(m);
    var w := (if q == m then shifted - signedD else shifted + signedD) % (2 * TWO_32);
    (Wrap(w), w >= TWO_32)
  }

  /** T says whether the new partial remainder has the divisor's sign. */
  function Div1(cpu: Cpu, n: RegIndex, m: RegIndex): Cpu {
    var d := if n == m then Plus(Times(2, cpu.r[n]), Bit(cpu.sr.t)) else cpu.r[m];
    var (rn, q) := DivideStep(cpu.r[n], cpu.sr.t, cpu.sr.q, cpu.sr.m, d);
    WithReg(cpu, n, rn).(sr := cpu.sr.(q := q, t := q == cpu.sr.m))
  }

  function Div0s(cpu: Cpu, n: RegIndex, m: RegIndex): Cpu {
    var q, mm := Negative(cpu.r[n]), Negative(cpu.r[m]);
    cpu.(sr := cpu.sr.(q := q, m := mm, t := q != mm))
  }

  function Div0u(cpu: Cpu): Cpu {
    cpu.(sr := cpu.sr.(q := false, m := false, t := false))
  }

  const TWO_64 := 0x1_0000_0000_0000_0000
  const MAX_48 := 0x7FFF_FFFF_FFFF
  const MIN_48 := -0x8000_0000_0000

  /** MACH:MACL as a signed 64-bit number. */
  function Mac(cpu: Cpu): int {
    Signed(cpu.mach) * TWO_32 + cpu.macl
  }

  function WithMac(cpu: Cpu, v: int): Cpu {
    cpu.(mach := Wrap(v / TWO_32), macl := Wrap(v))
  }

  function WrapSigned64(v: int): int {
    var w := v % TWO_64;
    if w < TWO_64 / 2 then w else w - TWO_64
  }

  function Clamp(v: int, lo: int, hi: int): int {
    if v > hi then hi else if v < lo then lo else v
  }

  /** Two post-incremented operands; with n == m the second comes from the next cell. */
  function MacL(decode: Decoder, cpu: Cpu, n: RegIndex, m: RegIndex): Cpu
    requires Fits(decode, |cpu.mem.ram|)
  {
    var vn := Read32(decode, cpu.mem, cpu.r[n]);
    var cpu1 := WithReg(cpu, n, Plus(cpu.r[n], 4));
    var vm := Read32(decode, cpu.mem, cpu1.r[m]);
    var cpu2 := WithReg(cpu1, m, Plus(cpu1.r[m], 4));
    var sum := WrapSigned64(Mac(cpu) + Signed(vn) * Signed(vm));
    WithMac(cpu2, if cpu.sr.s then Clamp(sum, MIN_48, MAX_48) else sum)
  }

  function MacW(decode: Decoder, cpu: Cpu, n: RegIndex, m: RegIndex): Cpu
    requires Fits(decode, |cpu.mem.ram|)
  {
    var vn := Read16(decode, cpu.mem, cpu.r[n]);
    var cpu1 := WithReg(cpu, n, Plus(cpu.r[n], 2));
    var vm := Read16(decode, cpu.mem, cpu1.r[m]);
    var cpu2 := WithReg(cpu1, m, Plus(cpu1.r[m], 2));
    var product := SignedHalf(vn) * SignedHalf(vm);
    if cpu.sr.s then
      var sum := Signed(cpu.macl) + product;
      var kept := Clamp(sum, -0x8000_0000, 0x7FFF_FFFF);
      cpu2.(macl := Wrap(kept),
            mach := if kept != sum && cpu.mach % 2 == 0 then cpu.mach + 1 else cpu.mach)
    else
      WithMac(cpu2, WrapSigned64(Mac(cpu) + product))
  }

  // ----- The decoder, one function per leading hexadecimal digit

  function Exec(decode: Decoder, cpu: Cpu, pc: Word, op: Half, slot: bool): (step: Step)
    requires Fits(decode, |cpu.mem.ram|)
    ensures |step.cpu.mem.ram| == |cpu.mem.ram|
  {
    var n, m, low := FieldN(op), FieldM(op), op % 0x10;
    var group := op / 0x1000;
    if group == 0x0 then Exec0(decode, cpu, pc, op, slot)
    else if group == 0x1 then Step(cpu.(mem := Write32(decode, cpu.mem, Plus(cpu.r[n], low * 4), cpu.r[m])), Next)
    else if group == 0x2 then Exec2(decode, cpu, op)
    else if group == 0x3 then Exec3(cpu, op)
    else if group == 0x4 then Exec4(decode, cpu, pc, op, slot)
    else if group == 0x5 then Step(WithReg(cpu, n, Read32(decode, cpu.mem, Plus(cpu.r[m], low * 4))), Next)
    else if group == 0x6 then Exec6(decode, cpu, op)
    else if group == 0x7 then Step(WithReg(cpu, n, Plus(cpu.r[n], Sext8(op))), Next)
    else if group == 0x8 then Exec8(cpu, pc, op, slot)
    else if group == 0x9 then
      Step(WithReg(cpu, n, Sext16(Read16(decode, cpu.mem, Wrap(pc + 4 + op % 0x100 * 2)))), Next)
    else if group == 0xA then
      if slot then Step(cpu, Illegal)
      else Step(cpu, Slot(Jump, Wrap(pc + 4 + Sext12(op) * 2), 0, true))
    else if group == 0xB then
      if slot then Step(cpu, Illegal)
      else Step(cpu.(pr := Plus(pc, 4)), Slot(Call, Wrap(pc + 4 + Sext12(op) * 2), Plus(pc, 4), true))
    else if group == 0xC then ExecC(cpu, pc, op, slot)
    else if group == 0xD then
      Step(WithReg(cpu, n, Read32(decode, cpu.mem, LiteralAddress(pc, op))), Next)
    else if group == 0xE then Step(WithReg(cpu, n, Sext8(op)), Next)
    else Step(cpu, Unmodelled)
  }

  /** ((pc + 4) & ~3) + disp * 4, the address form of MOV.L @(disp,PC) and MOVA. */
  function LiteralAddress(pc: Word, op: Half): Word {
    var next: Word := Plus(pc, 4);
    Wrap(next - next % 4 + op % 0x100 * 4)
  }

  function Exec0(decode: Decoder, cpu: Cpu, pc: Word, op: Half, slot: bool): (step: Step)
    requires Fits(decode, |cpu.mem.ram|)
    ensures |step.cpu.mem.ram| == |cpu.mem.ram|
  {
    var n, m, low8 := FieldN(op), FieldM(op), op % 0x100;
    if low8 == 0x03 || low8 == 0x23 then
      if slot then Step(cpu, Illegal)
      else if low8 == 0x03 then
        Step(cpu.(pr := Plus(pc, 4)), Slot(Call, Wrap(pc + 4 + cpu.r[n]), Plus(pc, 4), true))
      else Step(cpu, Slot(Jump, Wrap(pc + 4 + cpu.r[n]), 0, true))
    else if op % 0x10 == 0x6 then
      Step(cpu.(mem := Write32(decode, cpu.mem, Plus(cpu.r[n], cpu.r[0]), cpu.r[m])), Next)
    else if op % 0x10 == 0x7 then Step(cpu.(macl := Times(cpu.r[n], cpu.r[m])), Next)
    else if op == 0x0008 then Step(WithT(cpu, false), Next)
    else if op == 0x0018 then Step(WithT(cpu, true), Next)
    else if op == 0x0028 then Step(cpu.(mach := 0, macl := 0), Next)
    else if op == 0x0048 then Step(cpu.(sr := cpu.sr.(s := false)), Next)
    else if op == 0x0058 then Step(cpu.(sr := cpu.sr.(s := true)), Next)
    else if op == 0x0009 then Step(cpu, Next)
    else if op == 0x0019 then Step(Div0u(cpu), Next)
    else if low8 == 0x29 then Step(WithReg(cpu, n, Bit(cpu.sr.t)), Next)
    else if low8 == 0x0A then Step(WithReg(cpu, n, cpu.mach), Next)
    else if low8 == 0x1A then Step(WithReg(cpu, n, cpu.macl), Next)
    else if low8 == 0x2A then Step(WithReg(cpu, n, cpu.pr), Next)
    else if op == 0x000B then
      if slot then Step(cpu, Illegal) else Step(cpu, Slot(Return, cpu.pr, 0, true))
    else if op == 0x001B then
      if slot then Step(cpu, Illegal) else Step(cpu, Sleep)
    else if op % 0x10 == 0xE then
      Step(WithReg(cpu, n, Read32(decode, cpu.mem, Plus(cpu.r[m], cpu.r[0]))), Next)
    else if op % 0x10 == 0xF then Step(MacL(decode, cpu, n, m), Next)
    else Step(cpu, Unmodelled)
  }

  function Exec2(decode: Decoder, cpu: Cpu, op: Half): (step: Step)
    requires Fits(decode, |cpu.mem.ram|)
    ensures |step.cpu.mem.ram| == |cpu.mem.ram|
  {
    var n, m, low := FieldN(op), FieldM(op), op % 0x10;
    if low == 0x2 then Step(cpu.(mem := Write32(decode, cpu.mem, cpu.r[n], cpu.r[m])), Next)
    else if low == 0x6 then
      // The decrement comes first, so MOV.L Rn,@-Rn stores the decremented value.
      var cpu1 := WithReg(cpu, n, Minus(cpu.r[n], 4));
      Step(cpu1.(mem := Write32(decode, cpu.mem, cpu1.r[n], cpu1.r[m])), Next)
    else if low == 0x7 then Step(Div0s(cpu, n, m), Next)
    else if low == 0x8 then Step(WithT(cpu, And(cpu.r[n], cpu.r[m]) == 0), Next)
    else if low == 0x9 then Step(WithReg(cpu, n, And(cpu.r[n], cpu.r[m])), Next)
    else Step(cpu, Unmodelled)
  }

  function Exec3(cpu: Cpu, op: Half): (step: Step)
    ensures step.cpu.mem == cpu.mem
  {
    var n, m, low := FieldN(op), FieldM(op), op % 0x10;
    if low == 0x0 then Step(WithT(cpu, cpu.r[n] == cpu.r[m]), Next)
    else if low == 0x2 then Step(WithT(cpu, cpu.r[n] >= cpu.r[m]), Next)
    else if low == 0x3 then Step(WithT(cpu, Signed(cpu.r[n]) >= Signed(cpu.r[m])), Next)
    else if low == 0x4 then Step(Div1(cpu, n, m), Next)
    else if low == 0x6 then Step(WithT(cpu, cpu.r[n] > cpu.r[m]), Next)
    else if low == 0x7 then Step(WithT(cpu, Signed(cpu.r[n]) > Signed(cpu.r[m])), Next)
    else if low == 0x8 then Step(WithReg(cpu, n, Minus(cpu.r[n], cpu.r[m])), Next)
    else if low == 0xA then Step(Subc(cpu, n, m), Next)
    else if low == 0xC then Step(WithReg(cpu, n, Plus(cpu.r[n], cpu.r[m])), Next)
    else if low == 0xE then Step(Addc(cpu, n, m), Next)
    else Step(cpu, Unmodelled)
  }

  function Exec4(decode: Decoder, cpu: Cpu, pc: Word, op: Half, slot: bool): (step: Step)
    requires Fits(decode, |cpu.mem.ram|)
    ensures |step.cpu.mem.ram| == |cpu.mem.ram|
  {
    var n, m, low8 := FieldN(op), FieldM(op), op % 0x100;
    if low8 == 0x00 || low8 == 0x20 then Step(WithT(WithReg(cpu, n, Times(2, cpu.r[n])), Negative(cpu.r[n])), Next)
    else if low8 == 0x01 then Step(WithT(WithReg(cpu, n, cpu.r[n] / 2), cpu.r[n] % 2 == 1), Next)
    else if low8 == 0x24 then Step(Rotcl(cpu, n), Next)
    else if low8 == 0x25 then Step(Rotcr(cpu, n), Next)
    else if low8 == 0x08 then Step(WithReg(cpu, n, Times(4, cpu.r[n])), Next)
    else if low8 == 0x09 then Step(WithReg(cpu, n, cpu.r[n] / 4), Next)
    else if low8 == 0x10 then
      var v := Minus(cpu.r[n], 1);
      Step(WithT(WithReg(cpu, n, v), v == 0), Next)
    else if low8 == 0x11 then Step(WithT(cpu, Signed(cpu.r[n]) >= 0), Next)
    else if low8 == 0x15 then Step(WithT(cpu, Signed(cpu.r[n]) > 0), Next)
    else if low8 == 0x22 then
      var a := Minus(cpu.r[n], 4);
      Step(WithReg(cpu, n, a).(mem := Write32(decode, cpu.mem, a, cpu.pr)), Next)
    else if low8 == 0x26 then
      Step(WithReg(cpu, n, Plus(cpu.r[n], 4)).(pr := Read32(decode, cpu.mem, cpu.r[n])), Next)
    else if low8 == 0x0B || low8 == 0x2B then
      if slot then Step(cpu, Illegal)
      else if low8 == 0x0B then Step(cpu.(pr := Plus(pc, 4)), Slot(Call, cpu.r[n], Plus(pc, 4), true))
      else Step(cpu, Slot(Jump, cpu.r[n], 0, true))
    else if op % 0x10 == 0xF then Step(MacW(decode, cpu, n, m), Next)
    else Step(cpu, Unmodelled)
  }

  function Exec6(decode: Decoder, cpu: Cpu, op: Half): (step: Step)
    requires Fits(decode, |cpu.mem.ram|)
    ensures step.cpu.mem == cpu.mem
  {
    var n, m, low := FieldN(op), FieldM(op), op % 0x10;
    if low == 0x2 then Step(WithReg(cpu, n, Read32(decode, cpu.mem, cpu.r[m])), Next)
    else if low == 0x3 then Step(WithReg(cpu, n, cpu.r[m]), Next)
    else if low == 0x6 then
      // The loaded value wins over the increment when both go to the same register.
      var v := Read32(decode, cpu.mem, cpu.r[m]);
      Step(WithReg(WithReg(cpu, m, Plus(cpu.r[m], 4)), n, v), Next)
    else if low == 0xA then Step(Negc(cpu, n, m), Next)
    else if low == 0xB then Step(WithReg(cpu, n, Minus(0, cpu.r[m])), Next)
    else Step(cpu, Unmodelled)
  }

  function Exec8(cpu: Cpu, pc: Word, op: Half, slot: bool): (step: Step)
    ensures step.cpu.mem == cpu.mem
  {
    var sub := FieldN(op);
    var target := Wrap(pc + 4 + Sext8(op) * 2);
    if sub == 0x8 then Step(WithT(cpu, cpu.r[0] == Sext8(op)), Next)
    else if sub in {0x9, 0xB, 0xD, 0xF} then
      var taken := if sub == 0x9 || sub == 0xD then cpu.sr.t else !cpu.sr.t;
      if slot then Step(cpu, Illegal)
      else if sub == 0x9 || sub == 0xB then Step(cpu, Branch(target, taken))
      else Step(cpu, Slot(CondJump, target, 0, taken))
    else Step(cpu, Unmodelled)
  }

  function ExecC(cpu: Cpu, pc: Word, op: Half, slot: bool): (step: Step)
    ensures step.cpu.mem == cpu.mem
  {
    var sub := FieldN(op);
    if sub == 0x3 then
      if slot then Step(cpu, Illegal) else Step(cpu, Trap(op % 0x100))
    else if sub == 0x7 then Step(WithReg(cpu, 0, LiteralAddress(pc, op)), Next)
    else Step(cpu, Unmodelled)
  }
}

/** What the single instructions of the SH-4 mean, in integers, binary digits and memory words, and the
    laws that hold across them. */
module Sh4Laws {
  import opened Options
  import opened Words
  import opened Bits
  import opened Memory
  import opened Sh4Isa
  import opened Sh4Program

  /** An eight-bit immediate, as the signed number it stands for. */
  function SignedByte(i: nat): int
    requires i < 0x100
  {
    if i < 0x80 then i else i - 0x100
  }

  /** op falls through and changes nothing but Rn, or Rn and T. */
  ghost predicate OnlyReg(step: Step, cpu: Cpu, n: RegIndex) {
    step.signal == Next && step.cpu == cpu.(r := cpu.r[n := step.cpu.r[n]])
  }

  ghost predicate OnlyRegT(step: Step, cpu: Cpu, n: RegIndex) {
    step.signal == Next && step.cpu == cpu.(r := cpu.r[n := step.cpu.r[n]], sr := cpu.sr.(t := step.cpu.sr.t))
  }

  ghost predicate OnlyT(step: Step, cpu: Cpu) {
    step.signal == Next && step.cpu == cpu.(sr := cpu.sr.(t := step.cpu.sr.t))
  }

  // ----- Arithmetic

  lemma AddSub(decode: Decoder, cpu: Cpu, pc: Word, m: RegIndex, n: RegIndex)
    requires Fits(decode, |cpu.mem.ram|)
    ensures var step := Exec(decode, cpu, pc, Op2(0x300C, m, n), false);
            OnlyReg(step, cpu, n) && Congruent(step.cpu.r[n], cpu.r[n] as int + cpu.r[m] as int)
    ensures var step := Exec(decode, cpu, pc, Op2(0x3008, m, n), false);
            OnlyReg(step, cpu, n) && Congruent(step.cpu.r[n], cpu.r[n] as int - cpu.r[m] as int)
  {
    hide Op2, Wrap, Congruent, Div1, Addc, Subc;
    Fields2(0x300C, m, n);
    Fields2(0x3008, m, n);
    WrapCongruent(cpu.r[n] as int + cpu.r[m]);
    WrapCongruent(cpu.r[n] as int - cpu.r[m]);
  }

  lemma MoveNegate(decode: Decoder, cpu: Cpu, pc: Word, m: RegIndex, n: RegIndex)
    requires Fits(decode, |cpu.mem.ram|)
    ensures var step := Exec(decode, cpu, pc, Op2(0x6003, m, n), false);
            OnlyReg(step, cpu, n) && step.cpu.r[n] == cpu.r[m]
    ensures var step := Exec(decode, cpu, pc, Op2(0x600B, m, n), false);
            OnlyReg(step, cpu, n) && Congruent(step.cpu.r[n], -(cpu.r[m] as int))
  {
    hide Op2, Wrap, Congruent, Negc, Read32;
    Fields2(0x6003, m, n);
    Fields2(0x600B, m, n);
    WrapCongruent(0 - cpu.r[m] as int);
  }

  lemma AndTest(decode: Decoder, cpu: Cpu, pc: Word, m: RegIndex, n: RegIndex)
    requires Fits(decode, |cpu.mem.ram|)
    ensures var step := Exec(decode, cpu, pc, Op2(0x2009, m, n), false);
            OnlyReg(step, cpu, n) && forall i :: 0 <= i < 32 ==> (BitOf(step.cpu.r[n], i) <==> BitOf(cpu.r[n], i) && BitOf(cpu.r[m], i))
    ensures var step := Exec(decode, cpu, pc, Op2(0x2008, m, n), false);
            OnlyT(step, cpu) && (step.cpu.sr.t <==> forall i :: 0 <= i < 32 ==> !(BitOf(cpu.r[n], i) && BitOf(cpu.r[m], i)))
  {
    hide Op2, And, BitOf, Write32, Div0s;
    Fields2(0x2009, m, n);
    Fields2(0x2008, m, n);
    forall i | 0 <= i < 32
      ensures BitOf(And(cpu.r[n], cpu.r[m]), i) <==> BitOf(cpu.r[n], i) && BitOf(cpu.r[m], i)
    {
      AndBits(cpu.r[n], cpu.r[m], i);
    }
    ZeroByBits(And(cpu.r[n], cpu.r[m]));
  }

  /** A word is zero when none of its digits is set. */
  lemma ZeroByBits(w: Word)
    ensures w == 0 <==> forall i :: 0 <= i < 32 ==> !BitOf(w, i)
  {
    Pow2Small();
    hide Pow2, BitOf;
    forall i: nat
      ensures !BitOf(0, i)
    {
      NoBits(i);
    }
    if forall i :: 0 <= i < 32 ==> !BitOf(w, i) {
      SameBits(w, 0, 32);
    }
  }

  /** MUL.L: the low word of the product, whether the operands are read unsigned or signed. */
  lemma Multiply(decode: Decoder, cpu: Cpu, pc: Word, m: RegIndex, n: RegIndex)
    requires Fits(decode, |cpu.mem.ram|)
    ensures var step := Exec(decode, cpu, pc, Op2(0x0007, m, n), false);
            && step.signal == Next && step.cpu == cpu.(macl := step.cpu.macl)
            && Congruent(step.cpu.macl, cpu.r[n] as int * cpu.r[m] as int)
            && Congruent(step.cpu.macl, Signed(cpu.r[n]) * Signed(cpu.r[m]))
  {
    hide Op2, Wrap, Congruent, MacL, Signed;
    Fields2(0x0007, m, n);
    WrapCongruent(cpu.r[n] as int * cpu.r[m] as int);
    SignedProduct(cpu.r[n], cpu.r[m]);
  }

  lemma SignedProduct(a: Word, b: Word)
    ensures Congruent(Wrap(a as int * b as int), Signed(a) * Signed(b))
  {
    WrapCongruent(a as int * b as int);
    var i, j := Bit(Negative(a)), Bit(Negative(b));
    var x, y := a as int, b as int;
    var k := i * y + j * x - TWO_32 * (i * j);
    assert Signed(a) == x - TWO_32 * i && Signed(b) == y - TWO_32 * j;
    Expanded(x, y, i, j);
    assert Signed(a) * Signed(b) == x * y - TWO_32 * k;
    hide Wrap, Signed;
    var q := (Wrap(x * y) - x * y) / TWO_32;
    assert Wrap(x * y) - x * y == TWO_32 * q;
    DivModUnique(Wrap(x * y) - (x * y - TWO_32 * k), TWO_32, q + k, 0);
  }

  lemma Expanded(x: int, y: int, i: int, j: int)
    ensures (x - TWO_32 * i) * (y - TWO_32 * j) == x * y - TWO_32 * (i * y + j * x - TWO_32 * (i * j))
  {
    assert (x - TWO_32 * i) * (y - TWO_32 * j) == x * y - x * (TWO_32 * j) - TWO_32 * i * y + TWO_32 * i * (TWO_32 * j);
    assert x * (TWO_32 * j) == TWO_32 * (j * x) && TWO_32 * i * y == TWO_32 * (i * y);
    assert TWO_32 * i * (TWO_32 * j) == TWO_32 * (TWO_32 * (i * j));
  }

  lemma Immediates(decode: Decoder, cpu: Cpu, pc: Word, n: RegIndex, i: nat)
    requires Fits(decode, |cpu.mem.ram|) && i < 0x100
    ensures var step := Exec(decode, cpu, pc, Op1(0x7000, n) + i, false);
            OnlyReg(step, cpu, n) && Congruent(step.cpu.r[n], cpu.r[n] + SignedByte(i))
    ensures var step := Exec(decode, cpu, pc, Op1(0xE000, n) + i, false);
            OnlyReg(step, cpu, n) && Signed(step.cpu.r[n]) == SignedByte(i)
    ensures var step := Exec(decode, cpu, pc, 0x8800 + i, false);
            OnlyT(step, cpu) && (step.cpu.sr.t <==> Signed(cpu.r[0]) == SignedByte(i))
  {
    hide Wrap, Congruent, Exec0, Exec2, Exec3, Exec4, Exec6, ExecC, Read32, Read16, Write32;
    WithLowByte(0x7000, n, i);
    WithLowByte(0xE000, n, i);
    AddedImmediate(cpu.r[n], i);
  }

  lemma WithLowByte(base: Half, n: RegIndex, i: nat)
    requires base % 0x1000 == 0 && i < 0x100
    ensures var op := Op1(base, n) + i;
            op < 0x1_0000 && op / 0x1000 == base / 0x1000 && FieldN(op) == n && op % 0x100 == i
  {
  }

  lemma AddedImmediate(a: Word, i: nat)
    requires i < 0x100
    ensures Congruent(Plus(a, if i < 0x80 then i else i + 0xFFFF_FF00), a + SignedByte(i))
  {
    var x := a + if i < 0x80 then i else i + 0xFFFF_FF00;
    WrapCongruent(x);
    hide Wrap;
    var q := (Wrap(x) - x) / TWO_32;
    DivModUnique(Wrap(x) - (a + SignedByte(i)), TWO_32, q + Bit(i >= 0x80), 0);
  }

  // ----- Comparisons

  lemma ComparesUnsigned(decode: Decoder, cpu: Cpu, pc: Word, m: RegIndex, n: RegIndex)
    requires Fits(decode, |cpu.mem.ram|)
    ensures var step := Exec(decode, cpu, pc, Op2(0x3000, m, n), false); OnlyT(step, cpu) && (step.cpu.sr.t <==> cpu.r[n] == cpu.r[m])
    ensures var step := Exec(decode, cpu, pc, Op2(0x3002, m, n), false); OnlyT(step, cpu) && (step.cpu.sr.t <==> cpu.r[m] <= cpu.r[n])
    ensures var step := Exec(decode, cpu, pc, Op2(0x3006, m, n), false); OnlyT(step, cpu) && (step.cpu.sr.t <==> cpu.r[m] < cpu.r[n])
  {
    hide Op2, Signed, Div1, Addc, Subc, Exec0, Exec2, Exec4, Exec6, Exec8, ExecC;
    Fields2(0x3000, m, n);
    Fields2(0x3002, m, n);
    Fields2(0x3006, m, n);
  }

  lemma ComparesSigned(decode: Decoder, cpu: Cpu, pc: Word, m: RegIndex, n: RegIndex)
    requires Fits(decode, |cpu.mem.ram|)
    ensures var step := Exec(decode, cpu, pc, Op2(0x3003, m, n), false);
            OnlyT(step, cpu) && (step.cpu.sr.t <==> Signed(cpu.r[m]) <= Signed(cpu.r[n]))
    ensures var step := Exec(decode, cpu, pc, Op2(0x3007, m, n), false);
            OnlyT(step, cpu) && (step.cpu.sr.t <==> Signed(cpu.r[m]) < Signed(cpu.r[n]))
  {
    hide Op2, Signed, Div1, Addc, Subc, Exec0, Exec2, Exec4, Exec6, Exec8, ExecC;
    Fields2(0x3003, m, n);
    Fields2(0x3007, m, n);
  }

  lemma ComparesWithZero(decode: Decoder, cpu: Cpu, pc: Word, n: RegIndex)
    requires Fits(decode, |cpu.mem.ram|)
    ensures var step := Exec(decode, cpu, pc, Op1(0x4011, n), false); OnlyT(step, cpu) && (step.cpu.sr.t <==> 0 <= Signed(cpu.r[n]))
    ensures var step := Exec(decode, cpu, pc, Op1(0x4015, n), false); OnlyT(step, cpu) && (step.cpu.sr.t <==> 0 < Signed(cpu.r[n]))
  {
    hide Op1, Signed, Times, Rotcl, Rotcr, MacW, Exec0, Exec2, Exec3, Exec6, Exec8, ExecC;
    Fields1(0x4011, n);
    Fields1(0x4015, n);
  }

  /** T after an instruction. */
  function TAfter(decode: Decoder, cpu: Cpu, pc: Word, op: Half): bool
    requires Fits(decode, |cpu.mem.ram|)
  {
    Exec(decode, cpu, pc, op, false).cpu.sr.t
  }

  /** After CLRT the borrow of SUBC is the answer of CMP/HS turned round. */
  lemma BorrowIsComparison(decode: Decoder, cpu: Cpu, pc: Word, m: RegIndex, n: RegIndex)
    requires Fits(decode, |cpu.mem.ram|) && !cpu.sr.t
    ensures TAfter(decode, cpu, pc, SUBC(m, n)) == !TAfter(decode, cpu, pc, Op2(0x3002, m, n))
  {
    hide Exec, Wrap;
    ComparesUnsigned(decode, cpu, pc, m, n);
    DecodeCarry(decode, cpu, pc, m, n);
  }

  // ----- Shifts

  /** y with carry c is x shifted left, t coming in at the bottom. */
  predicate ShiftedLeft(x: Word, t: bool, y: Word, c: bool) { y as int + TWO_32 * Bit(c) == 2 * x as int + Bit(t) }

  /** y with the lost digit c is x shifted right, t coming in at the top. */
  predicate ShiftedRight(x: Word, t: bool, y: Word, c: bool) { 2 * y as int + Bit(c) == x as int + TWO_32 * Bit(t) }

  lemma ShiftsLeft(decode: Decoder, cpu: Cpu, pc: Word, n: RegIndex)
    requires Fits(decode, |cpu.mem.ram|)
    ensures var step := Exec(decode, cpu, pc, Op1(0x4000, n), false);
            OnlyRegT(step, cpu, n) && ShiftedLeft(cpu.r[n], false, step.cpu.r[n], step.cpu.sr.t)
    ensures var step := Exec(decode, cpu, pc, Op1(0x4020, n), false);
            OnlyRegT(step, cpu, n) && ShiftedLeft(cpu.r[n], false, step.cpu.r[n], step.cpu.sr.t)
    ensures var step := Exec(decode, cpu, pc, ROTCL(n), false);
            OnlyRegT(step, cpu, n) && ShiftedLeft(cpu.r[n], cpu.sr.t, step.cpu.r[n], step.cpu.sr.t)
  {
    hide Op1, Wrap, Rotcr, MacW, Exec0, Exec2, Exec3, Exec6, Exec8, ExecC, Read32, Write32;
    Fields1(0x4000, n);
    Fields1(0x4020, n);
    Fields1(0x4024, n);
    WrapNear(2 * cpu.r[n] as int);
    WrapNear(2 * cpu.r[n] as int + Bit(cpu.sr.t));
  }

  lemma ShiftsRight(decode: Decoder, cpu: Cpu, pc: Word, n: RegIndex)
    requires Fits(decode, |cpu.mem.ram|)
    ensures var step := Exec(decode, cpu, pc, Op1(0x4001, n), false);
            OnlyRegT(step, cpu, n) && ShiftedRight(cpu.r[n], false, step.cpu.r[n], step.cpu.sr.t)
    ensures var step := Exec(decode, cpu, pc, Op1(0x4025, n), false);
            OnlyRegT(step, cpu, n) && ShiftedRight(cpu.r[n], cpu.sr.t, step.cpu.r[n], step.cpu.sr.t)
  {
    hide Op1, Wrap, Rotcl, MacW, Exec0, Exec2, Exec3, Exec6, Exec8, ExecC, Read32, Write32;
    Fields1(0x4001, n);
    Fields1(0x4025, n);
  }

  lemma ShiftsByTwo(decode: Decoder, cpu: Cpu, pc: Word, n: RegIndex)
    requires Fits(decode, |cpu.mem.ram|)
    ensures var step := Exec(decode, cpu, pc, Op1(0x4008, n), false); OnlyReg(step, cpu, n) && Congruent(step.cpu.r[n], 4 * cpu.r[n] as int)
    ensures var step := Exec(decode, cpu, pc, Op1(0x4009, n), false);
            OnlyReg(step, cpu, n) && 0 <= cpu.r[n] as int - 4 * step.cpu.r[n] as int < 4
  {
    hide Op1, Wrap, Congruent, Rotcl, Rotcr, MacW, Exec0, Exec2, Exec3, Exec6, Exec8, ExecC, Read32, Write32;
    Fields1(0x4008, n);
    Fields1(0x4009, n);
    WrapCongruent(4 * cpu.r[n] as int);
  }

  /** ROTCR undoes ROTCL, and ROTCL undoes ROTCR. */
  lemma RotationsUndo(decode: Decoder, cpu: Cpu, pc: Word, n: RegIndex)
    requires Fits(decode, |cpu.mem.ram|)
    ensures Run(decode, cpu, pc, [ROTCL(n), Op1(0x4025, n)]) == Some(cpu)
    ensures Run(decode, cpu, pc, [Op1(0x4025, n), ROTCL(n)]) == Some(cpu)
  {
    hide Exec, Op1;
    var l := Exec(decode, cpu, pc, ROTCL(n), false).cpu;
    var r := Exec(decode, cpu, pc, Op1(0x4025, n), false).cpu;
    ShiftsLeft(decode, cpu, pc, n);
    ShiftsRight(decode, cpu, pc, n);
    ShiftsRight(decode, l, Plus(pc, 2), n);
    ShiftsLeft(decode, r, Plus(pc, 2), n);
    TwoSteps(decode, cpu, pc, ROTCL(n), Op1(0x4025, n));
    TwoSteps(decode, cpu, pc, Op1(0x4025, n), ROTCL(n));
    assert Exec(decode, l, Plus(pc, 2), Op1(0x4025, n), false).cpu.r == cpu.r;
    assert Exec(decode, r, Plus(pc, 2), ROTCL(n), false).cpu.r == cpu.r;
  }

  lemma TwoSteps(decode: Decoder, cpu: Cpu, pc: Word, a: Half, b: Half)
    requires Fits(decode, |cpu.mem.ram|)
    ensures var s := Exec(decode, cpu, pc, a, false);
            s.signal == Next ==>
              var u := Exec(decode, s.cpu, Plus(pc, 2), b, false);
              Run(decode, cpu, pc, [a, b]) == if u.signal == Next then Some(u.cpu) else None
  {
    hide Exec;
    assert [a] + [b] == [a, b];
    RunOne(decode, cpu, pc, a, [b]);
    var s := Exec(decode, cpu, pc, a, false);
    RunLast(decode, s.cpu, Plus(pc, 2), b);
  }

  /** SHLR on the high word and ROTCR on the low one halve the two-word number, the lost bit in T;
      SHLL on the low word and ROTCL on the high one double it. */
  lemma TwoWordShifts(decode: Decoder, cpu: Cpu, pc: Word, hi: RegIndex, lo: RegIndex)
    requires Fits(decode, |cpu.mem.ram|) && hi != lo
    ensures var run := Run(decode, cpu, pc, [Op1(0x4001, hi), Op1(0x4025, lo)]);
            run.Some? && 2 * Double(run.value, hi, lo) + Bit(run.value.sr.t) == Double(cpu, hi, lo)
    ensures var run := Run(decode, cpu, pc, [Op1(0x4000, lo), ROTCL(hi)]);
            run.Some? && Double(run.value, hi, lo) + TWO_64 * Bit(run.value.sr.t) == 2 * Double(cpu, hi, lo)
  {
    hide Exec, Op1;
    var a := Exec(decode, cpu, pc, Op1(0x4001, hi), false).cpu;
    var b := Exec(decode, cpu, pc, Op1(0x4000, lo), false).cpu;
    ShiftsRight(decode, cpu, pc, hi);
    ShiftsLeft(decode, cpu, pc, lo);
    ShiftsRight(decode, a, Plus(pc, 2), lo);
    ShiftsLeft(decode, b, Plus(pc, 2), hi);
    TwoSteps(decode, cpu, pc, Op1(0x4001, hi), Op1(0x4025, lo));
    TwoSteps(decode, cpu, pc, Op1(0x4000, lo), ROTCL(hi));
  }

  /** The two-word number hi:lo. */
  function Double(cpu: Cpu, hi: RegIndex, lo: RegIndex): int { cpu.r[hi] as int * TWO_32 + cpu.r[lo] as int }
}

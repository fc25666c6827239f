/** Straight-line SH-4 code as a sequence of opcodes, and the encodings the theorems use. */
module Sh4Program {
  import opened Options
  import opened Words
  import opened Memory
  import opened Sh4Isa

  function Op2(base: Half, m: RegIndex, n: RegIndex): Half
    requires base % 0x1000 < 0x10
  {
    base + n * 0x100 + m * 0x10
  }

  function Op1(base: Half, n: RegIndex): Half
    requires base % 0x1000 < 0x100
  {
    base + n * 0x100
  }

  // Operands in assembly order: source register m, destination register n.
  function MOV(m: RegIndex, n: RegIndex): Half { Op2(0x6003, m, n) }

  function MOV0(n: RegIndex): Half { Op1(0xE000, n) }

  function ROTCL(n: RegIndex): Half { Op1(0x4024, n) }

  function ADDC(m: RegIndex, n: RegIndex): Half { Op2(0x300E, m, n) }

  function SUBC(m: RegIndex, n: RegIndex): Half { Op2(0x300A, m, n) }

  function DIV0S(m: RegIndex, n: RegIndex): Half { Op2(0x2007, m, n) }

  const DIV0U: Half := 0x0019

  function DIV1(m: RegIndex, n: RegIndex): Half { Op2(0x3004, m, n) }

  function MACL(m: RegIndex, n: RegIndex): Half { Op2(0x000F, m, n) }

  function MACW(m: RegIndex, n: RegIndex): Half { Op2(0x400F, m, n) }

  /** The state after straight-line code; None when an instruction does anything but fall through. */
  function Run(decode: Decoder, cpu: Cpu, pc: Word, code: seq<Half>): (out: Option<Cpu>)
    requires Fits(decode, |cpu.mem.ram|)
    ensures out.Some? ==> |out.value.mem.ram| == |cpu.mem.ram|
    decreases |code|
  {
    if code == [] then Some(cpu)
    else
      var step := Exec(decode, cpu, pc, code[0], false);
      if step.signal == Next then Run(decode, step.cpu, Plus(pc, 2), code[1..]) else None
  }

  lemma {:induction false} RunConcat(decode: Decoder, cpu: Cpu, pc: Word, a: seq<Half>, b: seq<Half>)
    requires Fits(decode, |cpu.mem.ram|)
    ensures var mid := Run(decode, cpu, pc, a);
            Run(decode, cpu, pc, a + b) == if mid.Some? then Run(decode, mid.value, Wrap(pc + 2 * |a|), b) else None
    decreases |a|
  {
    hide Exec, Wrap, Plus;
    NextPc(pc, |a|);
    if a == [] {
      assert a + b == b;
    } else {
      var step := Exec(decode, cpu, pc, a[0], false);
      RunConcat(decode, step.cpu, Plus(pc, 2), a[1..], b);
      assert (a + b)[1..] == a[1..] + b;
    }
  }

  lemma RunOne(decode: Decoder, cpu: Cpu, pc: Word, op: Half, code: seq<Half>)
    requires Fits(decode, |cpu.mem.ram|)
    ensures var step := Exec(decode, cpu, pc, op, false);
            Run(decode, cpu, pc, [op] + code) == if step.signal == Next then Run(decode, step.cpu, Plus(pc, 2), code) else None
  {
    hide Exec;
    assert ([op] + code)[1..] == code;
  }

  lemma RunNothing(decode: Decoder, cpu: Cpu, pc: Word)
    requires Fits(decode, |cpu.mem.ram|)
    ensures Run(decode, cpu, pc, []) == Some(cpu)
  {
  }

  lemma RunLast(decode: Decoder, cpu: Cpu, pc: Word, op: Half)
    requires Fits(decode, |cpu.mem.ram|)
    ensures var step := Exec(decode, cpu, pc, op, false);
            Run(decode, cpu, pc, [op]) == if step.signal == Next then Some(step.cpu) else None
  {
    hide Exec;
    assert [op][1..] == [];
  }

  lemma NextPc(pc: Word, count: nat)
    ensures count == 0 ==> Wrap(pc + 2 * count) == pc
    ensures count > 0 ==> Wrap(Plus(pc, 2) + 2 * (count - 1)) == Wrap(pc + 2 * count)
  {
  }

  // ----- What each encoding executes

  lemma Fields2(base: Half, m: RegIndex, n: RegIndex)
    requires base % 0x1000 < 0x10
    ensures var op := Op2(base, m, n);
            && FieldN(op) == n && FieldM(op) == m && op % 0x10 == base % 0x10
            && op / 0x1000 == base / 0x1000 && op % 0x100 == m * 0x10 + base % 0x10
  {
    var group, low := base / 0x1000, base % 0x1000;
    var op := Op2(base, m, n);
    assert op == 0x1000 * group + (n * 0x100 + m * 0x10 + low);
    DivModUnique(op, 0x1000, group, n * 0x100 + m * 0x10 + low);
    DivModUnique(op, 0x100, 0x10 * group + n, m * 0x10 + low);
    DivModUnique(0x10 * group + n, 0x10, group, n);
    DivModUnique(op, 0x10, 0x100 * group + 0x10 * n + m, low);
    DivModUnique(0x100 * group + 0x10 * n + m, 0x10, 0x10 * group + n, m);
  }

  lemma Fields1(base: Half, n: RegIndex)
    requires base % 0x1000 < 0x100
    ensures var op := Op1(base, n);
            FieldN(op) == n && op / 0x1000 == base / 0x1000 && op % 0x100 == base % 0x100 && op % 0x10 == base % 0x10
  {
  }

  lemma DecodeRotcl(decode: Decoder, cpu: Cpu, pc: Word, n: RegIndex)
    requires Fits(decode, |cpu.mem.ram|)
    ensures Exec(decode, cpu, pc, ROTCL(n), false) == Step(Rotcl(cpu, n), Next)
  {
    hide Op1, Rotcl;
    Fields1(0x4024, n);
  }

  lemma DecodeDiv1(decode: Decoder, cpu: Cpu, pc: Word, m: RegIndex, n: RegIndex)
    requires Fits(decode, |cpu.mem.ram|)
    ensures Exec(decode, cpu, pc, DIV1(m, n), false) == Step(Div1(cpu, n, m), Next)
  {
    hide Op2, Div1;
    Fields2(0x3004, m, n);
  }

  lemma DecodeDiv0s(decode: Decoder, cpu: Cpu, pc: Word, m: RegIndex, n: RegIndex)
    requires Fits(decode, |cpu.mem.ram|)
    ensures Exec(decode, cpu, pc, DIV0S(m, n), false) == Step(Div0s(cpu, n, m), Next)
  {
    hide Op2, Div0s;
    Fields2(0x2007, m, n);
  }

  lemma DecodeDiv0u(decode: Decoder, cpu: Cpu, pc: Word)
    requires Fits(decode, |cpu.mem.ram|)
    ensures Exec(decode, cpu, pc, DIV0U, false) == Step(Div0u(cpu), Next)
  {
  }

  lemma DecodeCarry(decode: Decoder, cpu: Cpu, pc: Word, m: RegIndex, n: RegIndex)
    requires Fits(decode, |cpu.mem.ram|)
    ensures Exec(decode, cpu, pc, SUBC(m, n), false) == Step(Subc(cpu, n, m), Next)
    ensures Exec(decode, cpu, pc, ADDC(m, n), false) == Step(Addc(cpu, n, m), Next)
  {
    hide Op2, Subc, Addc;
    Fields2(0x300A, m, n);
    Fields2(0x300E, m, n);
  }

  lemma DecodeMov(decode: Decoder, cpu: Cpu, pc: Word, m: RegIndex, n: RegIndex)
    requires Fits(decode, |cpu.mem.ram|)
    ensures Exec(decode, cpu, pc, MOV(m, n), false) == Step(WithReg(cpu, n, cpu.r[m]), Next)
  {
    hide Op2;
    Fields2(0x6003, m, n);
  }

  lemma DecodeMov0(decode: Decoder, cpu: Cpu, pc: Word, n: RegIndex)
    requires Fits(decode, |cpu.mem.ram|)
    ensures Exec(decode, cpu, pc, MOV0(n), false) == Step(WithReg(cpu, n, 0), Next)
  {
    hide Op1;
    Fields1(0xE000, n);
  }

  lemma DecodeMac(decode: Decoder, cpu: Cpu, pc: Word, m: RegIndex, n: RegIndex)
    requires Fits(decode, |cpu.mem.ram|)
    ensures Exec(decode, cpu, pc, MACL(m, n), false) == Step(MacL(decode, cpu, n, m), Next)
    ensures Exec(decode, cpu, pc, MACW(m, n), false) == Step(MacW(decode, cpu, n, m), Next)
  {
    hide Op2, MacL, MacW;
    Fields2(0x000F, m, n);
    Fields2(0x400F, m, n);
  }
}

/** What an assembled program does when the processor reads it back from memory. */
module AssemblerMeaning {
  import opened Words
  import opened Memory
  import opened Sh4Isa
  import opened Sh4Program
  import opened Assembler
  import LiteralPages

  // ----- The meaning of the assembly language

  function SignedByte(imm: int): int { if imm % 0x100 < 0x80 then imm % 0x100 else imm % 0x100 - 0x100 }

  function Target(l: Listing, name: string): Word {
    if name in l.labels then Wrap(l.labels[name]) else 0
  }

  /** The effect of one instruction in terms of its operands, its label and its literal. */
  function Meaning(decode: Decoder, cpu: Cpu, pc: Word, l: Listing, ins: Ins): Step
    requires Fits(decode, |cpu.mem.ram|)
  {
    var r := cpu.r;
    match ins
    case MovImm(imm, rn) => Step(WithReg(cpu, rn, Wrap(SignedByte(imm))), Next)
    case Mov(rm, rn) => Step(WithReg(cpu, rn, r[rm]), Next)
    case AddImm(imm, rn) => Step(WithReg(cpu, rn, Plus(r[rn], SignedByte(imm))), Next)
    case Add(rm, rn) => Step(WithReg(cpu, rn, Plus(r[rn], r[rm])), Next)
    case Shll(rn) => Step(WithT(WithReg(cpu, rn, Times(2, r[rn])), Negative(r[rn])), Next)
    case Shll2(rn) => Step(WithReg(cpu, rn, Times(4, r[rn])), Next)
    case Shlr2(rn) => Step(WithReg(cpu, rn, r[rn] / 4), Next)
    case Tst(rm, rn) => Step(WithT(cpu, And(r[rn], r[rm]) == 0), Next)
    case CmpEq(rm, rn) => Step(WithT(cpu, r[rn] == r[rm]), Next)
    case StoreL(rm, rn) => Step(cpu.(mem := Write32(decode, cpu.mem, r[rn], r[rm])), Next)
    case LoadL(rm, rn) => Step(WithReg(cpu, rn, Read32(decode, cpu.mem, r[rm])), Next)
    case StoreIdx(rm, rn) => Step(cpu.(mem := Write32(decode, cpu.mem, Plus(r[rn], r[0]), r[rm])), Next)
    case LoadIdx(rm, rn) => Step(WithReg(cpu, rn, Read32(decode, cpu.mem, Plus(r[rm], r[0]))), Next)
    case PushPr =>
      var a := Minus(r[15], 4);
      Step(WithReg(cpu, 15, a).(mem := Write32(decode, cpu.mem, a, cpu.pr)), Next)
    case PopPr => Step(WithReg(cpu, 15, Plus(r[15], 4)).(pr := Read32(decode, cpu.mem, r[15])), Next)
    case Rts => Step(cpu, Slot(Return, cpu.pr, 0, true))
    case Nop => Step(cpu, Next)
    case Goto(BF, name) => Step(cpu, Branch(Target(l, name), !cpu.sr.t))
    case Goto(BT, name) => Step(cpu, Branch(Target(l, name), cpu.sr.t))
    case Goto(BRA, name) => Step(cpu, Slot(Jump, Target(l, name), 0, true))
    case Goto(BSR, name) => Step(cpu.(pr := Plus(pc, 4)), Slot(Call, Target(l, name), Plus(pc, 4), true))
    case Literal(rn, value) => Step(WithReg(cpu, rn, Wrap(value)), Next)
  }

  // ----- The bytes in memory

  function HalfAt(decode: Decoder, mem: Mem, base: int, k: int): Half
    requires Fits(decode, |mem.ram|)
  {
    Read16(decode, mem, Wrap(base + k))
  }

  function WordAt(decode: Decoder, mem: Mem, base: int, k: int): Word
    requires Fits(decode, |mem.ram|)
  {
    Read32(decode, mem, Wrap(base + k))
  }

  /** Memory holds the bytes from base on, as the aligned 16- and 32-bit reads see it. */
  ghost predicate Loaded(decode: Decoder, mem: Mem, base: int, bytes: seq<Byte>)
    requires Fits(decode, |mem.ram|)
  {
    && (forall k :: 0 <= k && k + 2 <= |bytes| && (base + k) % 2 == 0 ==>
          HalfAt(decode, mem, base, k) == LoadHalf(bytes, k))
    && (forall k :: 0 <= k && k + 4 <= |bytes| && (base + k) % 4 == 0 ==>
          WordAt(decode, mem, base, k) == LoadWord(bytes, k))
  }

  /** That is what copying them into SDRAM brings about, short of a mirror's last two bytes. */
  lemma LoadedInSdram(m: Mem, base: Word, bytes: seq<Byte>)
    requires |m.ram| == RAM_SIZE && LiteralPages.SdramIndex(base, |bytes| + 2).Some?
    ensures Fits(Sdram, RAM_SIZE) && Loaded(Sdram, LiteralPages.Bulk(m, base, bytes), base, bytes)
  {
    hide LoadWord, LoadHalf, LiteralPages.Replace, Sdram;
    SdramFits();
    var m' := LiteralPages.Bulk(m, base, bytes);
    var p := MainRamOffset(base);
    forall k | 0 <= k && k + 2 <= |bytes|
      ensures k + 4 <= |bytes| ==> WordAt(Sdram, m', base, k) == LoadWord(bytes, k)
      ensures HalfAt(Sdram, m', base, k) == LoadHalf(bytes, k)
    {
      SdramOffset(base, |bytes|, k);
      InPlace(m.ram, p, bytes, k);
    }
  }

  lemma SdramOffset(base: Word, n: nat, k: nat)
    requires LiteralPages.SdramIndex(base, n + 2).Some? && k + 2 <= n
    ensures Sdram(Wrap(base + k)) == MainRamOffset(base) + k
  {
    var x := base % 0x2000_0000;
    var off := MainRamOffset(base);
    var mirror := (x - 0x0C00_0000) / RAM_SIZE;
    assert x - 0x0C00_0000 == RAM_SIZE * mirror + off;
    assert base == 0x2000_0000 * (base / 0x2000_0000) + x;
    WrapNear(base + k);
    DivModUnique(base + k, 0x2000_0000, base / 0x2000_0000, x + k);
    DivModUnique(x + k - 0x0C00_0000, RAM_SIZE, mirror, off + k);
  }

  lemma InPlace(ram: seq<Byte>, p: nat, bytes: seq<Byte>, k: nat)
    requires |ram| == RAM_SIZE && p + |bytes| <= RAM_SIZE && k + 2 <= |bytes|
    ensures LoadHalf(LiteralPages.Replace(ram, p, bytes), p + k) == LoadHalf(bytes, k)
    ensures k + 4 <= |bytes| ==> LoadWord(LiteralPages.Replace(ram, p, bytes), p + k) == LoadWord(bytes, k)
  {
  }

  // ----- Reading it back

  lemma PoolInBytes(l: Listing, ws: seq<Half>, v: int)
    requires Finished(l, ws) && v in Pool(l.literals)
    ensures var k := 2 * (PoolStart(l) + 2 * Position(Pool(l.literals), v));
            k + 4 <= |Pack(ws)| && LoadWord(Pack(ws), k) == Wrap(v)
  {
    hide Finished, Resolved, Resolvable;
    PoolOfFinished(l, ws);
    var pool := Pool(l.literals);
    var j := Position(pool, v);
    var i := PoolStart(l) + 2 * j;
    PositionFinds(pool, v);
    PoolWordAt(pool, j);
    assert ws[i] == ws[PoolStart(l)..][2 * j] && ws[i + 1] == ws[PoolStart(l)..][2 * j + 1];
    PackAt(ws, i);
    PackAt(ws, i + 1);
    TwoHalves(v);
  }

  lemma PoolOfFinished(l: Listing, ws: seq<Half>)
    requires Finished(l, ws)
    ensures |ws| == PoolStart(l) + 2 * |Pool(l.literals)| && ws[PoolStart(l)..] == PoolWords(Pool(l.literals))
  {
  }

  lemma TwoHalves(v: int)
    ensures var lo, hi := v % 0x1_0000, v / 0x1_0000 % 0x1_0000;
            lo % 0x100 + 0x100 * (lo / 0x100) + 0x1_0000 * (hi % 0x100) + 0x100_0000 * (hi / 0x100) == Wrap(v)
  {
  }

  /** A fetch finds the assembled word. */
  lemma Fetches(l: Listing, ws: seq<Half>, decode: Decoder, mem: Mem, i: nat)
    requires l.base % 2 == 0 && i < |ws| && Fits(decode, |mem.ram|) && Loaded(decode, mem, l.base, Pack(ws))
    ensures Read16(decode, mem, Wrap(AddressOf(l, i))) == ws[i]
  {
    hide Loaded, Read16, Pack;
    PackAt(ws, i);
    HalfLoaded(decode, mem, l.base, Pack(ws), 2 * i);
  }

  lemma HalfLoaded(decode: Decoder, mem: Mem, base: int, bytes: seq<Byte>, k: nat)
    requires Fits(decode, |mem.ram|) && Loaded(decode, mem, base, bytes) && k + 2 <= |bytes| && (base + k) % 2 == 0
    ensures Read16(decode, mem, Wrap(base + k)) == LoadHalf(bytes, k)
  {
    hide LoadWord, LoadHalf, Read16, Read32;
    assert HalfAt(decode, mem, base, k) == LoadHalf(bytes, k);
  }

  lemma WordLoaded(decode: Decoder, mem: Mem, base: int, bytes: seq<Byte>, k: nat)
    requires Fits(decode, |mem.ram|) && Loaded(decode, mem, base, bytes) && k + 4 <= |bytes| && (base + k) % 4 == 0
    ensures Read32(decode, mem, Wrap(base + k)) == LoadWord(bytes, k)
  {
    hide LoadWord, LoadHalf, Read16, Read32;
    assert WordAt(decode, mem, base, k) == LoadWord(bytes, k);
  }

  lemma SignExtension(op: Half, d: int)
    ensures -128 <= d < 128 && op % 0x100 == d % 0x100 ==> Sext8(op) == Wrap(d)
    ensures -2048 <= d < 2048 && op % 0x1000 == d % 0x1000 ==> Sext12(op) == Wrap(d)
  {
  }

  /** Where a resolved displacement leads. */
  lemma JumpsThere(at: int, target: int, w: Word)
    requires (target - at) % 2 == 0 && w == Wrap((target - (at + 4)) / 2)
    ensures Wrap(Wrap(at) + 4 + w * 2) == Wrap(target)
  {
    hide Wrap;
    var d := (target - (at + 4)) / 2;
    assert target == at + 4 + 2 * d;
    WrapAdds(at, 4 + w * 2);
    WrapDouble(at + 4, d);
  }

  lemma WrapDouble(x: int, d: int)
    ensures Wrap(x + Wrap(d) * 2) == Wrap(x + 2 * d)
  {
    var q, w, y := d / TWO_32, d % TWO_32, x + 2 * d;
    assert d == TWO_32 * q + w;
    var p := y / TWO_32;
    assert y == TWO_32 * p + y % TWO_32;
    DivModUnique(x + 2 * w, TWO_32, p - 2 * q, y % TWO_32);
  }

  // ----- One lemma per kind of instruction

  lemma RegisterForms(decode: Decoder, cpu: Cpu, pc: Word, l: Listing, ins: Ins)
    requires Fits(decode, |cpu.mem.ram|)
    requires ins.Mov? || ins.Add? || ins.Tst? || ins.CmpEq?
    ensures Exec(decode, cpu, pc, Encode(ins), false) == Meaning(decode, cpu, pc, l, ins)
  {
    hide Op2, And, Exec0, Exec4, Exec8, ExecC;
    match ins
    case Mov(rm, rn) => Fields2(0x6003, rm, rn);
    case Add(rm, rn) => Fields2(0x300C, rm, rn);
    case Tst(rm, rn) => Fields2(0x2008, rm, rn);
    case CmpEq(rm, rn) => Fields2(0x3000, rm, rn);
  }

  lemma MemoryForms(decode: Decoder, cpu: Cpu, pc: Word, l: Listing, ins: Ins)
    requires Fits(decode, |cpu.mem.ram|)
    requires ins.StoreL? || ins.LoadL? || ins.StoreIdx? || ins.LoadIdx?
    ensures Exec(decode, cpu, pc, Encode(ins), false) == Meaning(decode, cpu, pc, l, ins)
  {
    hide Op2, Read32, Write32, And, Exec3, Exec4, Exec8, ExecC, MacL;
    match ins
    case StoreL(rm, rn) => Fields2(0x2002, rm, rn);
    case LoadL(rm, rn) => Fields2(0x6002, rm, rn);
    case StoreIdx(rm, rn) => Fields2(0x0006, rm, rn);
    case LoadIdx(rm, rn) => Fields2(0x000E, rm, rn);
  }

  lemma ShiftForms(decode: Decoder, cpu: Cpu, pc: Word, l: Listing, ins: Ins)
    requires Fits(decode, |cpu.mem.ram|)
    requires ins.Shll? || ins.Shll2? || ins.Shlr2? || ins.PushPr? || ins.PopPr? || ins.Rts? || ins.Nop?
    ensures Exec(decode, cpu, pc, Encode(ins), false) == Meaning(decode, cpu, pc, l, ins)
  {
    hide Op1, Read32, Write32;
    match ins
    case Shll(rn) => Fields1(0x4000, rn);
    case Shll2(rn) => Fields1(0x4008, rn);
    case Shlr2(rn) => Fields1(0x4009, rn);
    case PushPr =>
    case PopPr =>
    case Rts =>
    case Nop =>
  }

  lemma ImmediateForms(decode: Decoder, cpu: Cpu, pc: Word, l: Listing, ins: Ins)
    requires Fits(decode, |cpu.mem.ram|)
    requires ins.MovImm? || ins.AddImm?
    ensures Exec(decode, cpu, pc, Encode(ins), false) == Meaning(decode, cpu, pc, l, ins)
  {
    hide Op1, Sext8, SignedByte, Plus, Exec0, Exec2, Exec3, Exec4, Exec6, Exec8, ExecC;
    LowByte(if ins.MovImm? then 0xE000 else 0x7000, ins.rn, ins.imm % 0x100);
    ByteValue(ins.imm, Encode(ins));
    PlusWrapped(cpu.r[ins.rn], SignedByte(ins.imm));
  }

  lemma ByteValue(imm: int, op: Half)
    requires op % 0x100 == imm % 0x100
    ensures Sext8(op) == Wrap(SignedByte(imm))
  {
    SignExtension(op, SignedByte(imm));
  }

  lemma PlusWrapped(a: Word, b: int)
    ensures Plus(a, Wrap(b)) == Plus(a, b)
  {
  }

  /** An eight-bit field in the low byte leaves group and register alone. */
  lemma LowByte(base: Half, rn: RegIndex, low: int)
    requires base % 0x1000 == 0 && 0 <= low < 0x100
    ensures var op := Op1(base, rn) + low;
            op < 0x1_0000 && op / 0x1000 == base / 0x1000 && FieldN(op) == rn && op % 0x100 == low
  {
  }

  lemma ConditionalForms(decode: Decoder, cpu: Cpu, l: Listing, i: nat)
    requires Fits(decode, |cpu.mem.ram|) && LabelsFit(l.base, l.labels) && i < |l.code| && Resolvable(l, i)
    requires l.code[i].Goto? && (l.code[i].kind == BF || l.code[i].kind == BT)
    ensures var pc := Wrap(AddressOf(l, i));
            Exec(decode, cpu, pc, Resolved(l, i), false) == Meaning(decode, cpu, pc, l, l.code[i])
  {
    hide Sext8;
    var target := l.labels[l.code[i].name];
    var d := JumpDisp(l, i, target);
    var op := Resolved(l, i);
    ByteField(JumpOpcode(l.code[i].kind), d);
    SignExtension(op, d);
    EvenDistance(l, i, l.code[i].name);
    JumpsThere(AddressOf(l, i), target, Sext8(op));
  }

  lemma ByteField(base: Half, d: int)
    requires base == 0x8B00 || base == 0x8900
    ensures var op := base + d % 0x100;
            op % 0x100 == d % 0x100 && op / 0x1000 == 8 && FieldN(op) == if base == 0x8B00 then 0xB else 0x9
  {
  }

  lemma EvenDistance(l: Listing, i: nat, name: string)
    requires LabelsFit(l.base, l.labels) && name in l.labels
    ensures (l.labels[name] - AddressOf(l, i)) % 2 == 0
  {
  }

  lemma DelayedForms(decode: Decoder, cpu: Cpu, l: Listing, i: nat)
    requires Fits(decode, |cpu.mem.ram|) && LabelsFit(l.base, l.labels) && i < |l.code| && Resolvable(l, i)
    requires l.code[i].Goto? && (l.code[i].kind == BRA || l.code[i].kind == BSR)
    ensures var pc := Wrap(AddressOf(l, i));
            Exec(decode, cpu, pc, Resolved(l, i), false) == Meaning(decode, cpu, pc, l, l.code[i])
  {
    hide Sext12;
    var target := l.labels[l.code[i].name];
    var d := JumpDisp(l, i, target);
    var op := Resolved(l, i);
    TwelveField(JumpOpcode(l.code[i].kind), d);
    SignExtension(op, d);
    EvenDistance(l, i, l.code[i].name);
    JumpsThere(AddressOf(l, i), target, Sext12(op));
  }

  lemma TwelveField(base: Half, d: int)
    requires base == 0xA000 || base == 0xB000
    ensures var op := base + d % 0x1000; op % 0x1000 == d % 0x1000 && op / 0x1000 == base / 0x1000
  {
  }

  lemma LiteralForm(decode: Decoder, cpu: Cpu, l: Listing, ws: seq<Half>, i: nat)
    requires Fits(decode, |cpu.mem.ram|) && l.base % 2 == 0 && WellFormed(l) && Finished(l, ws) && i < |l.code| && l.code[i].Literal?
    requires Loaded(decode, cpu.mem, l.base, Pack(ws))
    ensures Resolvable(l, i)
    ensures var pc := Wrap(AddressOf(l, i));
            Exec(decode, cpu, pc, Resolved(l, i), false) == Meaning(decode, cpu, pc, l, l.code[i])
  {
    hide Loaded, Pack, LoadWord, Read32, LiteralAt, LiteralDisp, Finished, FixupsFit, LabelsFit, Op1;
    var v := l.code[i].value;
    ResolvedLiteral(l, ws, i);
    ValueInPool(l, i);
    PoolInBytes(l, ws, v);
    var k := 2 * (PoolStart(l) + 2 * Position(Pool(l.literals), v));
    PoolAligned(l, v);
    WordLoaded(decode, cpu.mem, l.base, Pack(ws), k);
    LowByte(0xD000, l.code[i].rn, LiteralDisp(l, i, LiteralAt(l, v)));
    LiteralReaches(l, i, v, Resolved(l, i));
  }

  lemma ResolvedLiteral(l: Listing, ws: seq<Half>, i: nat)
    requires Finished(l, ws) && i < |l.code| && l.code[i].Literal?
    ensures Resolvable(l, i) && 0 <= LiteralDisp(l, i, LiteralAt(l, l.code[i].value)) <= 255
  {
  }

  lemma ValueInPool(l: Listing, i: nat)
    requires WellFormed(l) && i < |l.code| && l.code[i].Literal?
    ensures l.code[i].value in Pool(l.literals)
  {
    hide FixupsFit, LabelsFit;
    PoolHolds(l.literals);
    var k :| 0 <= k < |l.literals| && l.literals[k].idx == i;
    assert l.literals[k].value == l.code[i].value;
  }

  lemma PoolAligned(l: Listing, v: int)
    requires l.base % 2 == 0
    ensures LiteralAt(l, v) == l.base + 2 * (PoolStart(l) + 2 * Position(Pool(l.literals), v)) && LiteralAt(l, v) % 4 == 0
  {
    hide Position, Pool;
    NopAligns(l.base, |l.code|);
    FoursStay(AddressOf(l, PoolStart(l)), Position(Pool(l.literals), v));
  }

  lemma NopAligns(base: int, n: nat)
    requires base % 2 == 0
    ensures (base + 2 * (n + if (base + 2 * n) % 4 != 0 then 1 else 0)) % 4 == 0
  {
  }

  lemma FoursStay(x: int, k: int)
    requires x % 4 == 0
    ensures (x + 4 * k) % 4 == 0
  {
  }

  lemma LiteralReaches(l: Listing, i: nat, v: int, op: Half)
    requires l.base % 2 == 0 && LiteralAt(l, v) % 4 == 0 && op % 0x100 == LiteralDisp(l, i, LiteralAt(l, v))
    ensures LiteralAddress(Wrap(AddressOf(l, i)), op) == Wrap(LiteralAt(l, v))
  {
    hide LiteralAt;
    AlignedTarget(AddressOf(l, i), LiteralAt(l, v), op % 0x100);
  }

  lemma AlignedTarget(at: int, target: int, disp: int)
    requires target % 4 == 0 && disp == (target - (at + 4 - (at + 4) % 4)) / 4
    ensures var next := Plus(Wrap(at), 4); Wrap(next - next % 4 + disp * 4) == Wrap(target)
  {
    hide Wrap;
    WrapKeepsLow(at + 4);
    var aligned := at + 4 - (at + 4) % 4;
    assert target == aligned + 4 * disp;
    WrapAdds(aligned, 4 * disp);
  }

  lemma WrapAdds(x: int, y: int)
    ensures Wrap(Wrap(x) + y) == Wrap(x + y)
  {
  }

  lemma WrapKeepsLow(x: int)
    ensures Plus(Wrap(x - 4), 4) == Wrap(x) && Wrap(x) - Wrap(x) % 4 == Wrap(x - x % 4)
  {
    WrapAdds(x - 4, 4);
    LowBits(x, x / TWO_32, x % TWO_32);
  }

  lemma LowBits(x: int, q: int, w: int)
    requires x == TWO_32 * q + w && 0 <= w < TWO_32
    ensures (x - x % 4) % TWO_32 == w - w % 4
  {
    assert x == 4 * (0x4000_0000 * q + w / 4) + w % 4;
    DivModUnique(x, 4, 0x4000_0000 * q + w / 4, w % 4);
    DivModUnique(x - x % 4, TWO_32, q, w - w % 4);
  }

  /** For every program that `finish` accepts at an even base, at every word of it: the processor
      fetches the assembled word and does what the source instruction means. In particular each jump
      goes to the address of its label, and each literal load gets the requested 32 bits. */
  lemma ReadBack(l: Listing, ws: seq<Half>, decode: Decoder, cpu: Cpu, i: nat)
    requires WellFormed(l) && l.base % 2 == 0 && Finished(l, ws) && i < |l.code|
    requires Fits(decode, |cpu.mem.ram|) && Loaded(decode, cpu.mem, l.base, Pack(ws))
    ensures var pc := Wrap(AddressOf(l, i));
            Exec(decode, cpu, pc, Read16(decode, cpu.mem, pc), false) == Meaning(decode, cpu, pc, l, l.code[i])
  {
    hide Exec, Meaning, Loaded, Pack, Read16, LiteralAt, LiteralDisp, JumpDisp, FixupsFit, LiteralsFit, LabelsFit, Encode;
    var pc := Wrap(AddressOf(l, i));
    Fetches(l, ws, decode, cpu.mem, i);
    match l.code[i]
    case Goto(kind, _) =>
      if kind == BF || kind == BT {
        ConditionalForms(decode, cpu, l, i);
      } else {
        DelayedForms(decode, cpu, l, i);
      }
    case Literal(_, _) => LiteralForm(decode, cpu, l, ws, i);
    case _ => PlainForms(decode, cpu, pc, l, l.code[i]);
  }

  lemma PlainForms(decode: Decoder, cpu: Cpu, pc: Word, l: Listing, ins: Ins)
    requires Fits(decode, |cpu.mem.ram|) && !ins.Goto? && !ins.Literal?
    ensures Exec(decode, cpu, pc, Encode(ins), false) == Meaning(decode, cpu, pc, l, ins)
  {
    hide Exec, Meaning, Encode;
    if ins.MovImm? || ins.AddImm? {
      ImmediateForms(decode, cpu, pc, l, ins);
    } else if ins.Shll? || ins.Shll2? || ins.Shlr2? || ins.PushPr? || ins.PopPr? || ins.Rts? || ins.Nop? {
      ShiftForms(decode, cpu, pc, l, ins);
    } else if ins.StoreL? || ins.LoadL? || ins.StoreIdx? || ins.LoadIdx? {
      MemoryForms(decode, cpu, pc, l, ins);
    } else {
      RegisterForms(decode, cpu, pc, l, ins);
    }
  }
}

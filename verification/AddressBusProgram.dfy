/** `_memTestAddressBus` twice: its machine code, and the recompiler's C++ for it. */
module AddressBusProgram {
  import opened Words
  import opened Memory
  import opened Sh4Isa

  // ----- The machine code

  const TEXT: Word := 0x8C01_0080
  const PATTERN: Word := 0xAAAA_AAAA
  const ANTIPATTERN: Word := 0x5555_5555
  const PATTERN_AT: Word := 0x8C01_0100
  const ANTIPATTERN_AT: Word := 0x8C01_0104

  function At(i: nat): Word
    requires i < 68
  {
    TEXT + 2 * i
  }

  /** The 64 opcodes of the function, in order. */
  function TextOp(i: nat): Half
    requires i < 64
  {
    match i
    case 0 => 0x6653 case 1 => 0x4609 case 2 => 0x76FF case 3 => 0xD91E
    case 4 => 0xDA1E case 5 => 0xE701 case 6 => 0x6073 case 7 => 0x4008
    case 8 => 0x0496 case 9 => 0x4700 case 10 => 0x6073 case 11 => 0x2068
    case 12 => 0x8BF8 case 13 => 0x24A2 case 14 => 0xE701 case 15 => 0x6073
    case 16 => 0x4008 case 17 => 0x014E case 18 => 0x3190 case 19 => 0x8B21
    case 20 => 0x4700 case 21 => 0x6073 case 22 => 0x2068 case 23 => 0x8BF6
    case 24 => 0x2492 case 25 => 0xE801 case 26 => 0x6083 case 27 => 0x4008
    case 28 => 0x04A6 case 29 => 0x6142 case 30 => 0x3190 case 31 => 0x8B1A
    case 32 => 0xE701 case 33 => 0x6073 case 34 => 0x4008 case 35 => 0x014E
    case 36 => 0x3190 case 37 => 0x8901 case 38 => 0x3780 case 39 => 0x8B12
    case 40 => 0x4700 case 41 => 0x6073 case 42 => 0x2068 case 43 => 0x8BF4
    case 44 => 0x6083 case 45 => 0x4008 case 46 => 0x0496 case 47 => 0x4800
    case 48 => 0x6083 case 49 => 0x2068 case 50 => 0x8BE6 case 51 => 0xE000
    case 52 => 0x000B case 53 => 0x0009 case 54 => 0x6073 case 55 => 0x4008
    case 56 => 0x304C case 57 => 0x000B case 58 => 0x0009 case 59 => 0x6083
    case 60 => 0x4008 case 61 => 0x304C case 62 => 0x000B case 63 => 0x0009
  }

  /** Memory holds the code and its literal pool. */
  ghost predicate TextLoaded(decode: Decoder, mem: Mem)
    requires Fits(decode, |mem.ram|)
  {
    && (forall i :: 0 <= i < 64 ==> Read16(decode, mem, At(i)) == TextOp(i))
    && Read32(decode, mem, PATTERN_AT) == PATTERN
    && Read32(decode, mem, ANTIPATTERN_AT) == ANTIPATTERN
  }

  /** A word stored at a overlaps neither code nor literals. */
  ghost predicate MissesText(decode: Decoder, a: Word) {
    var p := decode(a);
    && (forall i :: 0 <= i < 64 ==> p + 4 <= decode(At(i)) || decode(At(i)) + 2 <= p)
    && (p + 4 <= decode(PATTERN_AT) || decode(PATTERN_AT) + 4 <= p)
    && (p + 4 <= decode(ANTIPATTERN_AT) || decode(ANTIPATTERN_AT) + 4 <= p)
  }

  lemma StoreKeepsText(decode: Decoder, mem: Mem, a: Word, v: Word)
    requires Fits(decode, |mem.ram|) && TextLoaded(decode, mem) && MissesText(decode, a)
    ensures TextLoaded(decode, Write32(decode, mem, a, v))
  {
    ReadAfterWrite(decode, mem, a, v, PATTERN_AT);
    ReadAfterWrite(decode, mem, a, v, ANTIPATTERN_AT);
    var mem' := Write32(decode, mem, a, v);
    forall i | 0 <= i < 64
      ensures Read16(decode, mem', At(i)) == TextOp(i)
    {
      assert Read16(decode, mem', At(i)) == Read16(decode, mem, At(i));
    }
  }

  // ----- The generated C++

  /** The labels of the generated function, one per basic block. */
  datatype Block = B80 | B8C | B9A | B9E | BA8 | BB0 | BB4 | BC0 | BC2 | BCC | BD0 | BD8 | BE6 | BEC | BF6

  function Label(b: Block): Word {
    match b
    case B80 => 0x8C01_0080 case B8C => 0x8C01_008C case B9A => 0x8C01_009A case B9E => 0x8C01_009E
    case BA8 => 0x8C01_00A8 case BB0 => 0x8C01_00B0 case BB4 => 0x8C01_00B4 case BC0 => 0x8C01_00C0
    case BC2 => 0x8C01_00C2 case BCC => 0x8C01_00CC case BD0 => 0x8C01_00D0 case BD8 => 0x8C01_00D8
    case BE6 => 0x8C01_00E6 case BEC => 0x8C01_00EC case BF6 => 0x8C01_00F6
  }

  /** A PC-relative literal: the baked value while its page is clean, RAM afterwards. */
  function LoadLiteral(decode: Decoder, mem: Mem, storage: Word, baked: Word): Word
    requires Fits(decode, |mem.ram|)
  {
    var p := decode(storage);
    if p / PAGE_SIZE in mem.dirty || (p + 3) / PAGE_SIZE in mem.dirty then Read32(decode, mem, storage) else baked
  }

  /** Where a block goes when it is done. */
  datatype Exit = Goto(block: Block) | Leave

  function Store(decode: Decoder, cpu: Cpu, a: Word, v: Word): (cpu': Cpu)
    requires Fits(decode, |cpu.mem.ram|)
    ensures |cpu'.mem.ram| == |cpu.mem.ram|
  {
    cpu.(mem := Write32(decode, cpu.mem, a, v))
  }

  /** r[n] <<= 1 with the bit shifted out in T. */
  function Shll(cpu: Cpu, n: RegIndex): Cpu {
    WithT(WithReg(cpu, n, Times(2, cpu.r[n])), Negative(cpu.r[n]))
  }

  /** r[0] := r[n] << 2 */
  function OffsetOf(cpu: Cpu, n: RegIndex): Cpu {
    WithReg(cpu, 0, Times(4, cpu.r[n]))
  }

  /** r[n] <<= 1; r[0] := r[n]; T := (r[0] & r[6]) == 0 */
  function NextBit(cpu: Cpu, n: RegIndex): Cpu {
    var cpu1 := Shll(cpu, n);
    var cpu2 := WithReg(cpu1, 0, cpu1.r[n]);
    WithT(cpu2, And(cpu2.r[0], cpu2.r[6]) == 0)
  }

  /** The body of one basic block: the state it leaves and the label it goes to. */
  function RunBlock(decode: Decoder, cpu: Cpu, b: Block): (out: (Cpu, Exit))
    requires Fits(decode, |cpu.mem.ram|)
    ensures |out.0.mem.ram| == |cpu.mem.ram| && out.0.pr == cpu.pr
  {
    match b
    case B80 =>
      var c1 := WithReg(cpu, 6, Plus(cpu.r[5] / 4, 0xFFFF_FFFF));
      var c2 := WithReg(c1, 9, LoadLiteral(decode, c1.mem, PATTERN_AT, PATTERN));
      var c3 := WithReg(c2, 10, LoadLiteral(decode, c2.mem, ANTIPATTERN_AT, ANTIPATTERN));
      (WithReg(c3, 7, 1), Goto(B8C))
    case B8C =>
      var c1 := OffsetOf(cpu, 7);
      var c2 := NextBit(Store(decode, c1, Plus(c1.r[4], c1.r[0]), c1.r[9]), 7);
      (c2, Goto(if c2.sr.t then B9A else B8C))
    case B9A => (WithReg(Store(decode, cpu, cpu.r[4], cpu.r[10]), 7, 1), Goto(B9E))
    case B9E =>
      var c1 := OffsetOf(cpu, 7);
      var c2 := WithReg(c1, 1, Read32(decode, c1.mem, Plus(c1.r[4], c1.r[0])));
      var same := c2.r[1] == c2.r[9];
      (WithT(c2, same), Goto(if same then BA8 else BEC))
    case BA8 =>
      var c1 := NextBit(cpu, 7);
      (c1, Goto(if c1.sr.t then BB0 else B9E))
    case BB0 => (WithReg(Store(decode, cpu, cpu.r[4], cpu.r[9]), 8, 1), Goto(BB4))
    case BB4 =>
      var c1 := OffsetOf(cpu, 8);
      var c2 := Store(decode, c1, Plus(c1.r[4], c1.r[0]), c1.r[10]);
      var c3 := WithReg(c2, 1, Read32(decode, c2.mem, c2.r[4]));
      var same := c3.r[1] == c3.r[9];
      (WithT(c3, same), Goto(if same then BC0 else BF6))
    case BC0 => (WithReg(cpu, 7, 1), Goto(BC2))
    case BC2 =>
      var c1 := OffsetOf(cpu, 7);
      var c2 := WithReg(c1, 1, Read32(decode, c1.mem, Plus(c1.r[4], c1.r[0])));
      var same := c2.r[1] == c2.r[9];
      (WithT(c2, same), Goto(if same then BD0 else BCC))
    case BCC =>
      var same := cpu.r[7] == cpu.r[8];
      (WithT(cpu, same), Goto(if same then BD0 else BF6))
    case BD0 =>
      var c1 := NextBit(cpu, 7);
      (c1, Goto(if c1.sr.t then BD8 else BC2))
    case BD8 =>
      var c1 := OffsetOf(cpu, 8);
      var c2 := NextBit(Store(decode, c1, Plus(c1.r[4], c1.r[0]), c1.r[9]), 8);
      (c2, Goto(if c2.sr.t then BE6 else BB4))
    case BE6 => (WithReg(cpu, 0, 0), Leave)
    case BEC => (WithReg(cpu, 0, Plus(Times(4, cpu.r[7]), cpu.r[4])), Leave)
    case BF6 => (WithReg(cpu, 0, Plus(Times(4, cpu.r[8]), cpu.r[4])), Leave)
  }

  // ----- Termination: the walking bit is shifted out after at most 32 steps

  function TrailingZeros(x: nat): nat
    requires x > 0
  {
    if x % 2 == 1 then 0 else 1 + TrailingZeros(x / 2)
  }

  /** How often a word can still be shifted left before it is zero. */
  function ShiftsLeft(x: Word): int {
    if x == 0 then 0 else 32 - TrailingZeros(x)
  }

  lemma {:induction false} TrailingZerosBound(x: nat, k: nat)
    requires 0 < x < Pow2(k)
    ensures TrailingZeros(x) < k
    decreases k
  {
    if x % 2 == 0 {
      TrailingZerosBound(x / 2, k - 1);
    }
  }

  lemma {:induction false} TrailingZerosDrop(x: nat, k: nat)
    requires 0 < x < Pow2(k)
    ensures TrailingZeros(x + Pow2(k)) == TrailingZeros(x)
    decreases k
  {
    if x % 2 == 0 {
      assert (x + Pow2(k)) / 2 == x / 2 + Pow2(k - 1);
      TrailingZerosDrop(x / 2, k - 1);
    } else {
      assert k > 0;
    }
  }

  lemma ShiftProgress(x: Word)
    requires Times(2, x) != 0
    ensures 0 <= ShiftsLeft(Times(2, x)) < ShiftsLeft(x)
  {
    Pow2Small();
    hide Pow2;
    var y := if x >= 0x8000_0000 then x - 0x8000_0000 else x;
    assert Times(2, x) == 2 * y;
    TrailingZerosBound(2 * y, 32);
    if x >= 0x8000_0000 {
      TrailingZerosDrop(y, 31);
    }
  }

  lemma ShiftsLeftBound(x: Word)
    ensures 0 <= ShiftsLeft(x)
  {
    Pow2Small();
    hide Pow2;
    if x > 0 {
      TrailingZerosBound(x, 32);
    }
  }
}

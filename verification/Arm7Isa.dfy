/** The ARM7 core on one physical register file: 30 registers, indexed by mode and register
    number. `Arm7Core` holds them the way the C++ does, as a live file with saved banks. */
module Arm7Isa {
  import opened Options
  import opened Words

  // ----- Program status registers

  const USR: nat := 0x10
  const FIQ: nat := 0x11
  const IRQ: nat := 0x12
  const SVC: nat := 0x13
  const ABT: nat := 0x17
  const UND: nat := 0x1B
  const SYS: nat := 0x1F

  type Bits5 = x: nat | x < 0x20
  type Bits4 = x: nat | x < 0x10

  /** A status register by fields: flags byte (N, Z, C, V and four reserved bits), status and
      extension bytes, control byte (I, F, T, mode). */
  datatype Psr = Psr(n: bool, z: bool, c: bool, v: bool, reserved: Bits4, status: Byte, extension: Byte,
                     i: bool, f: bool, t: bool, mode: Bits5)

  function PsrWord(p: Psr): Word {
    0x8000_0000 * Bit(p.n) + 0x4000_0000 * Bit(p.z) + 0x2000_0000 * Bit(p.c) + 0x1000_0000 * Bit(p.v)
    + 0x100_0000 * p.reserved + 0x1_0000 * p.status as int + 0x100 * p.extension as int
    + 0x80 * Bit(p.i) + 0x40 * Bit(p.f) + 0x20 * Bit(p.t) + p.mode
  }

  function PsrOf(w: Word): Psr {
    Psr(w / 0x8000_0000 == 1, w / 0x4000_0000 % 2 == 1, w / 0x2000_0000 % 2 == 1, w / 0x1000_0000 % 2 == 1,
        w / 0x100_0000 % 0x10, w / 0x1_0000 % 0x100, w / 0x100 % 0x100,
        w / 0x80 % 2 == 1, w / 0x40 % 2 == 1, w / 0x20 % 2 == 1, w % 0x20)
  }

  predicate ValidMode(mode: nat) {
    mode in {USR, FIQ, IRQ, SVC, ABT, UND, SYS}
  }

  predicate HasSpsr(mode: nat) {
    mode in {FIQ, IRQ, SVC, ABT, UND}
  }

  /** MSR's field mask: control, extension, status and flags bytes selected one by one. */
  function ApplyPsrFields(before: Psr, value: Psr, fields: nat): Psr {
    var control := if fields % 2 == 1 then value else before;
    var extension := if fields / 2 % 2 == 1 then value else before;
    var status := if fields / 4 % 2 == 1 then value else before;
    var flags := if fields / 8 % 2 == 1 then value else before;
    Psr(flags.n, flags.z, flags.c, flags.v, flags.reserved, status.status, extension.extension,
        control.i, control.f, control.t, control.mode)
  }

  function ConditionPassed(p: Psr, cond: nat): bool {
    match cond
    case 0x0 => p.z
    case 0x1 => !p.z
    case 0x2 => p.c
    case 0x3 => !p.c
    case 0x4 => p.n
    case 0x5 => !p.n
    case 0x6 => p.v
    case 0x7 => !p.v
    case 0x8 => p.c && !p.z
    case 0x9 => !p.c || p.z
    case 0xA => p.n == p.v
    case 0xB => p.n != p.v
    case 0xC => !p.z && p.n == p.v
    case 0xD => p.z || p.n != p.v
    case 0xE => true
    case _ => false
  }

  // ----- The physical register file

  type File = s: seq<Word> | |s| == 30 witness seq(30, _ => 0)
  type Reg = i: nat | i < 15

  /** Which physical register a mode sees as register i. */
  function Index(mode: nat, i: Reg): (k: nat)
    ensures k < 30
  {
    if i < 8 then i
    else if mode == FIQ then 15 + (i - 8)
    else if i < 13 then i
    else if mode == IRQ then 22 + (i - 13)
    else if mode == SVC then 24 + (i - 13)
    else if mode == ABT then 26 + (i - 13)
    else if mode == UND then 28 + (i - 13)
    else i
  }

  function View(file: File, mode: nat, i: Reg): Word {
    file[Index(mode, i)]
  }

  function Update(file: File, mode: nat, i: Reg, v: Word): File {
    file[Index(mode, i) := v]
  }

  // ----- Barrel shifter and arithmetic

  datatype Shifted = Shifted(value: Word, carry: bool, valid: bool)

  function Rotr(w: Word, k: nat): Word
    requires k < 32
  {
    Wrap(w / Pow2(k) + w % Pow2(k) * Pow2(32 - k))
  }

  /** Shifting right with copies of the sign bit coming in. */
  function Asr(w: Word, k: nat): Word { Wrap(Signed(w) / Pow2(k)) }

  function ShiftValue(value: Word, kind: nat, amount: nat, oldCarry: bool, immediate: bool): Shifted {
    if kind == 0 then
      if amount == 0 then Shifted(value, oldCarry, false)
      else if amount < 32 then Shifted(Wrap(value * Pow2(amount)), BitOf(value, 32 - amount), true)
      else if amount == 32 then Shifted(0, value % 2 == 1, true)
      else Shifted(0, false, true)
    else if kind == 1 then
      var amount := if amount == 0 && immediate then 32 else amount;
      if amount == 0 then Shifted(value, oldCarry, false)
      else if amount < 32 then Shifted(Wrap(value / Pow2(amount)), BitOf(value, amount - 1), true)
      else if amount == 32 then Shifted(0, Negative(value), true)
      else Shifted(0, false, true)
    else if kind == 2 then
      var amount := if amount == 0 && immediate then 32 else amount;
      if amount == 0 then Shifted(value, oldCarry, false)
      else if amount >= 32 then Shifted(if Negative(value) then 0xFFFF_FFFF else 0, Negative(value), true)
      else Shifted(Asr(value, amount), BitOf(value, amount - 1), true)
    else if amount == 0 && immediate then
      Shifted(Wrap(0x8000_0000 * Bit(oldCarry) + value / 2), value % 2 == 1, true)
    else if amount == 0 then Shifted(value, oldCarry, false)
    else if amount % 32 == 0 then Shifted(value, Negative(value), true)
    else
      var v := Rotr(value, amount % 32);
      Shifted(v, Negative(v), true)
  }

  function Or(a: Word, b: Word): Word { Wrap(a + b - And(a, b)) }

  function Xor(a: Word, b: Word): Word { Wrap(a + b - 2 * And(a, b)) }

  function Not(a: Word): Word { 0xFFFF_FFFF - a }

  /** A result with the flags it leaves. */
  datatype Flagged = Flagged(result: Word, n: bool, z: bool, c: bool, v: bool)

  function SetFlags(p: Psr, f: Flagged): Psr {
    p.(n := f.n, z := f.z, c := f.c, v := f.v)
  }

  function AddWithCarry(a: Word, b: Word, carry: bool): Flagged {
    var wide := a + b + Bit(carry);
    var result := Wrap(wide);
    Flagged(result, Negative(result), result == 0, wide >= TWO_32,
            Negative(a) == Negative(b) && Negative(a) != Negative(result))
  }

  /** a - b - borrow. V looks at b + borrow wrapped to 32 bits, as the C++ does. */
  function SubWithBorrow(a: Word, b: Word, borrow: bool): Flagged {
    var rhs := b + Bit(borrow);
    var result := Minus(a, rhs);
    var effective := Wrap(rhs);
    Flagged(result, Negative(result), result == 0, a >= rhs,
            Negative(a) != Negative(effective) && Negative(a) != Negative(result))
  }

  // ----- Memory: bytes at guest addresses; an unmapped byte makes the bus throw

  type Bus = map<Word, Byte>

  function Bus8(bus: Bus, a: Word): Option<Word> {
    if a in bus then Some(bus[a] as int) else None
  }

  function Bus16(bus: Bus, a: Word): Option<Word> {
    if a in bus && Plus(a, 1) in bus then Some(bus[a] as int + 0x100 * bus[Plus(a, 1)] as int) else None
  }

  predicate Mapped32(bus: Bus, a: Word) {
    a in bus && Plus(a, 1) in bus && Plus(a, 2) in bus && Plus(a, 3) in bus
  }

  function Bus32(bus: Bus, a: Word): Option<Word> {
    if Mapped32(bus, a) then
      Some(bus[a] as int + 0x100 * bus[Plus(a, 1)] as int
           + 0x1_0000 * bus[Plus(a, 2)] as int + 0x100_0000 * bus[Plus(a, 3)] as int)
    else None
  }

  function Store8(bus: Bus, a: Word, v: Word): Option<Bus> {
    if a in bus then Some(bus[a := v % 0x100]) else None
  }

  function Store16(bus: Bus, a: Word, v: Word): Option<Bus> {
    if a in bus && Plus(a, 1) in bus then Some(bus[a := v % 0x100][Plus(a, 1) := v / 0x100 % 0x100]) else None
  }

  function Store32(bus: Bus, a: Word, v: Word): Option<Bus> {
    if Mapped32(bus, a) then
      Some(bus[a := v % 0x100][Plus(a, 1) := v / 0x100 % 0x100]
              [Plus(a, 2) := v / 0x1_0000 % 0x100][Plus(a, 3) := v / 0x100_0000])
    else None
  }
}

/** ARM7 instruction words built from their fields, and what the decoder makes of them. */
module Arm7Encoding {
  import opened Words
  import opened Bits
  import opened Arm7Isa
  import opened Arm7Step

  type Nibble = i: nat | i < 16

  /** Condition, eight opcode bits, two registers and the low twelve bits. */
  function Instruction(cond: Nibble, top: nat, rn: Nibble, rd: Nibble, low: nat): Word
    requires top < 0x100 && low < 0x1000
  {
    0x1000_0000 * cond + 0x10_0000 * top + 0x1_0000 * rn + 0x1000 * rd + low
  }

  // ----- Taking words apart

  lemma Pow2Table()
    ensures Pow2(0) == 1 && Pow2(1) == 2 && Pow2(2) == 4 && Pow2(3) == 8 && Pow2(4) == 0x10 && Pow2(5) == 0x20
    ensures Pow2(6) == 0x40 && Pow2(7) == 0x80 && Pow2(8) == 0x100 && Pow2(12) == 0x1000 && Pow2(16) == 0x1_0000
    ensures Pow2(20) == 0x10_0000
  {
    assert Pow2(8) == 0x100;
    assert Pow2(16) == 0x1_0000;
  }

  /** Digits above the field do not matter. */
  lemma DropHigh(x: nat, y: nat, a: nat, m: nat)
    requires a > 0 && m > 0
    ensures (x * (a * m) + y) / a % m == y / a % m
  {
    var q, r := y / a, y % a;
    assert y == a * q + r;
    Regroup(x, a, m, q);
    DivModUnique(x * (a * m) + y, a, x * m + q, r);
    var q', r' := q / m, q % m;
    assert q == m * q' + r';
    Regroup(x, m, 1, q');
    DivModUnique(x * m + q, m, x + q', r');
  }

  lemma Regroup(x: nat, a: nat, m: nat, q: nat)
    ensures x * (a * m) + a * q == a * (x * m + q)
  {
  }

  /** A field among the eight opcode bits. */
  lemma TopField(cond: Nibble, top: nat, rest: nat, s: nat, w: nat)
    requires top < 0x100 && rest < 0x10_0000 && s + w <= 8
    ensures (0x1000_0000 * cond + 0x10_0000 * top + rest) / Pow2(20 + s) % Pow2(w) == top / Pow2(s) % Pow2(w)
  {
    var op := 0x1000_0000 * cond + 0x10_0000 * top + rest;
    Pow2Table();
    Pow2Add(20, s);
    Pow2Add(s, w);
    Pow2Add(8 - s - w, s + w);
    hide Pow2;
    DivTwice(op, 0x10_0000, Pow2(s));
    DivModUnique(op, 0x10_0000, 0x100 * cond + top, rest);
    ScaledUp(cond, Pow2(8 - s - w), Pow2(s), Pow2(w));
    DropHigh(cond * Pow2(8 - s - w), top, Pow2(s), Pow2(w));
  }

  lemma ScaledUp(cond: nat, b: nat, a: nat, m: nat)
    requires b * (a * m) == 0x100
    ensures cond * b * (a * m) == 0x100 * cond
  {
  }

  /** A field among the low twelve bits. */
  lemma LowField(high: nat, low: nat, s: nat, w: nat)
    requires low < 0x1000 && s + w <= 12
    ensures (0x1000 * high + low) / Pow2(s) % Pow2(w) == low / Pow2(s) % Pow2(w)
  {
    hide Pow2;
    Pow2Table();
    Pow2Add(s, w);
    Pow2Add(12 - s - w, s + w);
    DropThousand(high, low, Pow2(12 - s - w), Pow2(s), Pow2(w));
  }

  lemma DropThousand(high: nat, low: nat, b: nat, a: nat, m: nat)
    requires a > 0 && m > 0 && b * (a * m) == 0x1000
    ensures (0x1000 * high + low) / a % m == low / a % m
  {
    ScaledLow(high, b, a, m);
    DropHigh(high * b, low, a, m);
  }

  lemma ScaledLow(high: nat, b: nat, a: nat, m: nat)
    requires b * (a * m) == 0x1000
    ensures high * b * (a * m) == 0x1000 * high
  {
  }

  /** Condition, registers and low bits. */
  lemma Registers(cond: Nibble, top: nat, rn: Nibble, rd: Nibble, low: nat)
    requires top < 0x100 && low < 0x1000
    ensures var op := Instruction(cond, top, rn, rd, low);
            && op / 0x1000_0000 == cond && op % 0x1000 == low && op % 0x100 == low % 0x100
            && RegField(op, 16) == rn && RegField(op, 12) == rd
            && RegField(op, 8) == low / 0x100 && RegField(op, 4) == low / 0x10 % 0x10 && RegField(op, 0) == low % 0x10
  {
    hide Pow2;
    Pow2Table();
    HighRegisters(cond, top, rn, rd, low);
    var high := 0x1_0000 * cond + 0x100 * top + 0x10 * rn + rd;
    assert Instruction(cond, top, rn, rd, low) == 0x1000 * high + low;
    LowField(high, low, 8, 4);
    LowField(high, low, 4, 4);
    LowField(high, low, 0, 4);
  }

  lemma HighRegisters(cond: Nibble, top: nat, rn: Nibble, rd: Nibble, low: nat)
    requires top < 0x100 && low < 0x1000
    ensures var op := Instruction(cond, top, rn, rd, low);
            && op / 0x1000_0000 == cond && op % 0x1000 == low && op % 0x100 == low % 0x100
            && op / 0x1_0000 % 0x10 == rn && op / 0x1000 % 0x10 == rd
  {
    var op := Instruction(cond, top, rn, rd, low);
    var high := 0x1_0000 * cond + 0x100 * top + 0x10 * rn + rd;
    DivModUnique(op, 0x1000_0000, cond, op - 0x1000_0000 * cond);
    DivModUnique(op, 0x1000, high, low);
    DivModUnique(op, 0x100, 0x10 * high + low / 0x100, low % 0x100);
    DivModUnique(op, 0x1_0000, 0x1000 * cond + 0x10 * top + rn, 0x1000 * rd + low);
    DivModUnique(0x1000 * cond + 0x10 * top + rn, 0x10, 0x100 * cond + top, rn);
    DivModUnique(high, 0x10, 0x1000 * cond + 0x10 * top + rn, rd);
  }

  /** The opcode bits the decoder looks at. */
  lemma Classes(cond: Nibble, top: nat, rn: Nibble, rd: Nibble, low: nat)
    requires top < 0x100 && low < 0x1000
    ensures var op := Instruction(cond, top, rn, rd, low);
            && Field(op, 26, 2) == top / 0x40 && Field(op, 25, 3) == top / 0x20 && Field(op, 23, 5) == top / 8
            && Field(op, 22, 6) == top / 4
  {
    hide Pow2;
    var rest := 0x1_0000 * rn + 0x1000 * rd + low;
    Pow2Table();
    TopField(cond, top, rest, 6, 2);
    TopField(cond, top, rest, 5, 3);
    TopField(cond, top, rest, 3, 5);
    TopField(cond, top, rest, 2, 6);
    WholeFields(top);
  }

  lemma WholeFields(top: nat)
    requires top < 0x100
    ensures top / 0x40 % 4 == top / 0x40 && top / 0x20 % 8 == top / 0x20 && top / 8 % 0x20 == top / 8 && top / 4 % 0x40 == top / 4
  {
    DivModUnique(top / 0x40, 4, 0, top / 0x40);
    DivModUnique(top / 0x20, 8, 0, top / 0x20);
    DivModUnique(top / 8, 0x20, 0, top / 8);
    DivModUnique(top / 4, 0x40, 0, top / 4);
  }

  lemma Subclasses(cond: Nibble, top: nat, rn: Nibble, rd: Nibble, low: nat)
    requires top < 0x100 && low < 0x1000
    ensures var op := Instruction(cond, top, rn, rd, low);
            Field(op, 23, 2) == top / 8 % 4 && Field(op, 20, 2) == top % 4 && RegField(op, 21) == top / 2 % 16
  {
    hide Pow2;
    var rest := 0x1_0000 * rn + 0x1000 * rd + low;
    Pow2Table();
    TopField(cond, top, rest, 3, 2);
    TopField(cond, top, rest, 0, 2);
    TopField(cond, top, rest, 1, 4);
  }

  /** The opcode bits one by one. */
  lemma OpcodeBits(cond: Nibble, top: nat, rn: Nibble, rd: Nibble, low: nat)
    requires top < 0x100 && low < 0x1000
    ensures var op := Instruction(cond, top, rn, rd, low);
            && Flag(op, 25) == (top / 0x20 % 2 == 1) && Flag(op, 24) == (top / 0x10 % 2 == 1) && Flag(op, 23) == (top / 8 % 2 == 1)
            && Flag(op, 22) == (top / 4 % 2 == 1) && Flag(op, 21) == (top / 2 % 2 == 1) && Flag(op, 20) == (top % 2 == 1)
  {
    hide Pow2;
    var rest := 0x1_0000 * rn + 0x1000 * rd + low;
    Pow2Table();
    TopField(cond, top, rest, 5, 1);
    TopField(cond, top, rest, 4, 1);
    TopField(cond, top, rest, 3, 1);
    TopField(cond, top, rest, 2, 1);
    TopField(cond, top, rest, 1, 1);
    TopField(cond, top, rest, 0, 1);
  }

  /** The low bits. */
  lemma ShiftFields(cond: Nibble, top: nat, rn: Nibble, rd: Nibble, low: nat)
    requires top < 0x100 && low < 0x1000
    ensures var op := Instruction(cond, top, rn, rd, low);
            && Field(op, 5, 2) == low / 0x20 % 4 && Field(op, 7, 5) == low / 0x80
            && Flag(op, 4) == (low / 0x10 % 2 == 1) && Flag(op, 7) == (low / 0x80 % 2 == 1)
  {
    hide Pow2;
    var high := 0x1_0000 * cond + 0x100 * top + 0x10 * rn + rd;
    assert Instruction(cond, top, rn, rd, low) == 0x1000 * high + low;
    Pow2Table();
    LowField(high, low, 5, 2);
    LowField(high, low, 7, 5);
    LowField(high, low, 4, 1);
    LowField(high, low, 7, 1);
  }

  /** The two fields that cross a boundary. */
  lemma CrossFields(cond: Nibble, top: nat, rn: Nibble, rd: Nibble, low: nat)
    requires top < 0x100 && low < 0x1000
    ensures var op := Instruction(cond, top, rn, rd, low);
            && Field(op, 16, 6) == top % 4 * 0x10 + rn
            && op / 0x10 % 0x100_0000 == 0x1_0000 * top + 0x1000 * rn + 0x100 * rd + low / 0x10
  {
    hide Pow2;
    Pow2Table();
    var op := Instruction(cond, top, rn, rd, low);
    var high := 0x1_0000 * cond + 0x100 * top + 0x10 * rn + rd;
    DivModUnique(op, 0x1_0000, 0x1000 * cond + 0x10 * top + rn, 0x1000 * rd + low);
    DivModUnique(0x1000 * cond + 0x10 * top + rn, 0x40, 0x40 * cond + top / 4, top % 4 * 0x10 + rn);
    DivModUnique(op, 0x10, 0x100 * high + low / 0x10, low % 0x10);
    DivModUnique(0x100 * high + low / 0x10, 0x100_0000, cond, 0x1_0000 * top + 0x1000 * rn + 0x100 * rd + low / 0x10);
  }
}

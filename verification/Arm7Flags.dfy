/** The flags mean arithmetic: comparisons, overflow, and carry chains of any length. */
module Arm7Flags {
  import opened Words
  import opened Limbs
  import opened Arm7Isa

  predicate FitsSigned(x: int) { -0x8000_0000 <= x < 0x8000_0000 }

  /** After CMP a,b each condition decides the comparison its name stands for. */
  lemma CompareDecides(p: Psr, a: Word, b: Word)
    ensures var q := SetFlags(p, SubWithBorrow(a, b, false));
            && (ConditionPassed(q, 0x0) <==> a == b)
            && (ConditionPassed(q, 0x1) <==> a != b)
            && (ConditionPassed(q, 0x2) <==> a >= b)
            && (ConditionPassed(q, 0x3) <==> a < b)
            && (ConditionPassed(q, 0x6) <==> !FitsSigned(Signed(a) - Signed(b)))
            && (ConditionPassed(q, 0x8) <==> a > b)
            && (ConditionPassed(q, 0x9) <==> a <= b)
            && (ConditionPassed(q, 0xA) <==> Signed(a) >= Signed(b))
            && (ConditionPassed(q, 0xB) <==> Signed(a) < Signed(b))
            && (ConditionPassed(q, 0xC) <==> Signed(a) > Signed(b))
            && (ConditionPassed(q, 0xD) <==> Signed(a) <= Signed(b))
  {
    WrapNear(a as int - b);
  }

  /** ADD and ADC: V is signed overflow, for either carry. */
  lemma AddOverflow(a: Word, b: Word, carry: bool)
    ensures AddWithCarry(a, b, carry).v <==> !FitsSigned(Signed(a) + Signed(b) + Bit(carry))
  {
    WrapNear(a as int + b + Bit(carry));
  }

  /** SUB, SBC and their reverses: V is signed overflow, except that it is inverted when the
      borrow makes the subtrahend 0x7FFFFFFF wrap to the other sign. */
  lemma SubOverflow(a: Word, b: Word, borrow: bool)
    ensures (SubWithBorrow(a, b, borrow).v <==> !FitsSigned(Signed(a) - Signed(b) - Bit(borrow)))
            <==> !(b == 0x7FFF_FFFF && borrow)
  {
    WrapNear(a as int - b - Bit(borrow));
    WrapNear(b as int + Bit(borrow));
  }

  // ----- Multi-word arithmetic, least significant limb first

  /** ADDS/ADCS on each limb in turn, C carried along. */
  function AddLimbs(xs: seq<Word>, ys: seq<Word>, carry: bool): (out: (seq<Word>, bool))
    requires |xs| == |ys|
    ensures |out.0| == |xs|
  {
    if xs == [] then ([], carry)
    else
      var f := AddWithCarry(xs[0], ys[0], carry);
      var (rest, c) := AddLimbs(xs[1..], ys[1..], f.c);
      ([f.result] + rest, c)
  }

  /** SUBS/SBCS on each limb in turn; the borrow is the complement of C. */
  function SubLimbs(xs: seq<Word>, ys: seq<Word>, c: bool): (out: (seq<Word>, bool))
    requires |xs| == |ys|
    ensures |out.0| == |xs|
  {
    if xs == [] then ([], c)
    else
      var f := SubWithBorrow(xs[0], ys[0], !c);
      var (rest, c') := SubLimbs(xs[1..], ys[1..], f.c);
      ([f.result] + rest, c')
  }

  lemma AddLimb(x: Word, y: Word, carry: bool)
    ensures var f := AddWithCarry(x, y, carry);
            f.result + TWO_32 * Bit(f.c) == x + y + Bit(carry)
  {
    WrapNear(x as int + y + Bit(carry));
  }

  lemma SubLimb(x: Word, y: Word, c: bool)
    ensures var f := SubWithBorrow(x, y, !c);
            f.result - TWO_32 * Bit(!f.c) == x - y - Bit(!c)
  {
    WrapNear(x as int - y - Bit(!c));
  }

  /** An ADDS/ADCS chain is the exact sum, with C as the carry out. */
  lemma {:induction false} AddChainExact(xs: seq<Word>, ys: seq<Word>, carry: bool)
    requires |xs| == |ys|
    ensures var (zs, c) := AddLimbs(xs, ys, carry);
            Value(zs) + Radix(|xs|) * Bit(c) == Value(xs) + Value(ys) + Bit(carry)
  {
    hide AddWithCarry;
    if xs == [] {
      assert ys == [];
    } else {
      var f := AddWithCarry(xs[0], ys[0], carry);
      AddLimb(xs[0], ys[0], carry);
      AddChainExact(xs[1..], ys[1..], f.c);
      var (rest, c) := AddLimbs(xs[1..], ys[1..], f.c);
      assert ([f.result] + rest)[1..] == rest;
      Regroup(Radix(|xs| - 1), Bit(c));
    }
  }

  /** A SUBS/SBCS chain is the exact difference, with C telling that there was no borrow. */
  lemma {:induction false} SubChainExact(xs: seq<Word>, ys: seq<Word>, c: bool)
    requires |xs| == |ys|
    ensures var (zs, c') := SubLimbs(xs, ys, c);
            && Value(zs) - Radix(|xs|) * Bit(!c') == Value(xs) - Value(ys) - Bit(!c)
            && (c' <==> Value(xs) >= Value(ys) + Bit(!c))
  {
    hide SubWithBorrow;
    if xs == [] {
      assert ys == [];
    } else {
      var f := SubWithBorrow(xs[0], ys[0], !c);
      SubLimb(xs[0], ys[0], c);
      SubChainExact(xs[1..], ys[1..], f.c);
      var (rest, c') := SubLimbs(xs[1..], ys[1..], f.c);
      assert ([f.result] + rest)[1..] == rest;
      Regroup(Radix(|xs| - 1), Bit(!c'));
      ValueBound([f.result] + rest);
    }
  }

  // ----- Status registers as words

  function FlagsByte(p: Psr): int {
    0x80 * Bit(p.n) + 0x40 * Bit(p.z) + 0x20 * Bit(p.c) + 0x10 * Bit(p.v) + p.reserved
  }

  function ControlByte(p: Psr): int { 0x80 * Bit(p.i) + 0x40 * Bit(p.f) + 0x20 * Bit(p.t) + p.mode }

  lemma PsrBytes(p: Psr)
    ensures 0 <= FlagsByte(p) < 0x100 && 0 <= ControlByte(p) < 0x100
    ensures PsrWord(p) == 0x100_0000 * FlagsByte(p) + 0x1_0000 * p.status as int + 0x100 * p.extension as int + ControlByte(p)
  {
  }

  lemma BytesOf(a: int, b: int, c: int, d: int)
    requires 0 <= a < 0x100 && 0 <= b < 0x100 && 0 <= c < 0x100 && 0 <= d < 0x100
    ensures var w := 0x100_0000 * a + 0x1_0000 * b + 0x100 * c + d;
            w / 0x100_0000 == a && w / 0x1_0000 % 0x100 == b && w / 0x100 % 0x100 == c && w % 0x100 == d
  {
    var w := 0x100_0000 * a + 0x1_0000 * b + 0x100 * c + d;
    DivModUnique(w, 0x100_0000, a, 0x1_0000 * b + 0x100 * c + d);
    DivModUnique(w, 0x1_0000, 0x100 * a + b, 0x100 * c + d);
    DivModUnique(0x100 * a + b, 0x100, a, b);
    DivModUnique(w, 0x100, 0x1_0000 * a + 0x100 * b + c, d);
    DivModUnique(0x1_0000 * a + 0x100 * b + c, 0x100, 0x100 * a + b, c);
  }

  /** MSR works on whole bytes: each of the four comes from the new value where its field bit is
      set, and stays where it is not. */
  lemma MsrSelectsBytes(p: Psr, q: Psr, fields: nat)
    ensures var w := PsrWord(ApplyPsrFields(p, q, fields));
            && w / 0x100_0000 == PsrWord(if fields / 8 % 2 == 1 then q else p) / 0x100_0000
            && w / 0x1_0000 % 0x100 == PsrWord(if fields / 4 % 2 == 1 then q else p) / 0x1_0000 % 0x100
            && w / 0x100 % 0x100 == PsrWord(if fields / 2 % 2 == 1 then q else p) / 0x100 % 0x100
            && w % 0x100 == PsrWord(if fields % 2 == 1 then q else p) % 0x100
  {
    hide PsrWord, FlagsByte, ControlByte;
    var r := ApplyPsrFields(p, q, fields);
    FieldBytes(p, q, fields);
    forall x | x in {p, q, r}
      ensures PsrWord(x) / 0x100_0000 == FlagsByte(x) && PsrWord(x) / 0x1_0000 % 0x100 == x.status as int
      ensures PsrWord(x) / 0x100 % 0x100 == x.extension as int && PsrWord(x) % 0x100 == ControlByte(x)
    {
      PsrBytes(x);
      BytesOf(FlagsByte(x), x.status as int, x.extension as int, ControlByte(x));
    }
  }

  lemma FieldBytes(p: Psr, q: Psr, fields: nat)
    ensures var r := ApplyPsrFields(p, q, fields);
            && FlagsByte(r) == FlagsByte(if fields / 8 % 2 == 1 then q else p)
            && r.status == (if fields / 4 % 2 == 1 then q else p).status
            && r.extension == (if fields / 2 % 2 == 1 then q else p).extension
            && ControlByte(r) == ControlByte(if fields % 2 == 1 then q else p)
  {
    hide FlagsByte, ControlByte;
    var r := ApplyPsrFields(p, q, fields);
    SameFlags(r, if fields / 8 % 2 == 1 then q else p);
    SameControl(r, if fields % 2 == 1 then q else p);
  }

  lemma SameFlags(p: Psr, q: Psr)
    ensures p.n == q.n && p.z == q.z && p.c == q.c && p.v == q.v && p.reserved == q.reserved ==> FlagsByte(p) == FlagsByte(q)
  {
  }

  lemma SameControl(p: Psr, q: Psr)
    ensures p.i == q.i && p.f == q.f && p.t == q.t && p.mode == q.mode ==> ControlByte(p) == ControlByte(q)
  {
  }

  /** MRS and MSR lose nothing: the fields of a word's fields are the fields. */
  lemma PsrRoundTrip(p: Psr)
    ensures PsrOf(PsrWord(p)) == p
  {
    hide PsrWord, FlagsByte, ControlByte;
    PsrBytes(p);
    var w := PsrWord(p);
    BytesOf(FlagsByte(p), p.status as int, p.extension as int, ControlByte(p));
    TopBits(w, FlagsByte(p));
    LowBits(w, ControlByte(p));
    ByteBits(p);
  }

  lemma TopBits(w: Word, a: int)
    requires w / 0x100_0000 == a
    ensures w / 0x8000_0000 == a / 0x80 && w / 0x4000_0000 % 2 == a / 0x40 % 2
    ensures w / 0x2000_0000 % 2 == a / 0x20 % 2 && w / 0x1000_0000 % 2 == a / 0x10 % 2
    ensures w / 0x100_0000 % 0x10 == a % 0x10
  {
  }

  lemma LowBits(w: Word, d: int)
    requires w % 0x100 == d
    ensures w / 0x80 % 2 == d / 0x80 && w / 0x40 % 2 == d / 0x40 % 2 && w / 0x20 % 2 == d / 0x20 % 2 && w % 0x20 == d % 0x20
  {
    var h := w / 0x100;
    assert w == 0x100 * h + d;
    DivModUnique(w, 0x80, 2 * h + d / 0x80, d % 0x80);
    DivModUnique(w, 0x40, 4 * h + d / 0x40, d % 0x40);
    DivModUnique(w, 0x20, 8 * h + d / 0x20, d % 0x20);
    EvenPart(h, d / 0x80);
    EvenPart(2 * h, d / 0x40);
    EvenPart(4 * h, d / 0x20);
  }

  lemma EvenPart(h: int, x: int)
    ensures (2 * h + x) % 2 == x % 2
  {
  }

  lemma ByteBits(p: Psr)
    ensures var a := FlagsByte(p);
            (a / 0x80 == 1) == p.n && (a / 0x40 % 2 == 1) == p.z && (a / 0x20 % 2 == 1) == p.c
            && (a / 0x10 % 2 == 1) == p.v && a % 0x10 == p.reserved
    ensures var d := ControlByte(p);
            (d / 0x80 == 1) == p.i && (d / 0x40 % 2 == 1) == p.f && (d / 0x20 % 2 == 1) == p.t && d % 0x20 == p.mode
  {
    NibbleBits(p);
    Digits(Bit(p.n), Bit(p.z), Bit(p.c), 0x10 * Bit(p.v) + p.reserved as int);
    Digits(Bit(p.i), Bit(p.f), Bit(p.t), p.mode as int);
  }

  lemma NibbleBits(p: Psr)
    ensures FlagsByte(p) / 0x10 % 2 == Bit(p.v) && FlagsByte(p) % 0x10 == p.reserved
  {
    var high := 8 * Bit(p.n) + 4 * Bit(p.z) + 2 * Bit(p.c) + Bit(p.v);
    DivModUnique(FlagsByte(p), 0x10, high, p.reserved);
    EvenPart(4 * Bit(p.n) + 2 * Bit(p.z) + Bit(p.c), Bit(p.v));
  }

  /** Three top bits and the five below them. */
  lemma Digits(a: int, b: int, c: int, rest: int)
    requires 0 <= a < 2 && 0 <= b < 2 && 0 <= c < 2 && 0 <= rest < 0x20
    ensures var w := 0x80 * a + 0x40 * b + 0x20 * c + rest;
            w / 0x80 == a && w / 0x40 % 2 == b && w / 0x20 % 2 == c && w % 0x20 == rest
  {
    var w := 0x80 * a + 0x40 * b + 0x20 * c + rest;
    DivModUnique(w, 0x80, a, 0x40 * b + 0x20 * c + rest);
    DivModUnique(w, 0x40, 2 * a + b, 0x20 * c + rest);
    DivModUnique(w, 0x20, 4 * a + 2 * b + c, rest);
    EvenPart(a, b);
    EvenPart(2 * a + b, c);
  }
}

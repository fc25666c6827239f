/** The ARM7's barrel shifter and bitwise operations, in integers and binary digits. */
module Arm7Shifter {
  import opened Words
  import opened Bits
  import opened Arm7Isa

  const LSL: nat := 0
  const LSR: nat := 1
  const ASR: nat := 2
  const ROR: nat := 3

  // ----- Products

  lemma Distribute(a: int, b: int, c: int)
    ensures (a + b) * c == a * c + b * c && c * (a + b) == c * a + c * b
  {
  }

  lemma Reorder(a: int, b: int, c: int)
    ensures a * b * c == (a * c) * b && a * (b * c) == a * b * c
  {
  }

  /** A number below p, times q, stays q below p * q. */
  lemma Below(x: int, p: int, q: int)
    requires 0 <= x < p && q > 0
    ensures 0 <= x * q <= p * q - q
  {
    MulMonotone(q, x, p - 1);
    Distribute(p, -1, q);
    MulMonotone(q, 0, x);
  }

  lemma Powers(k: nat)
    requires k <= 32
    ensures Pow2(k) * Pow2(32 - k) == TWO_32
  {
    Pow2Add(k, 32 - k);
    Pow2Small();
  }

  // ----- Shift amounts 1 to 31

  /** value * 2^k is result plus 2^32 times what was shifted out, and the carry is the last digit out. */
  lemma LeftExact(value: Word, k: nat, c: bool, immediate: bool)
    requires 1 <= k <= 31
    ensures var s := ShiftValue(value, LSL, k, c, immediate);
            s.valid && exists out: nat :: value as int * Pow2(k) == TWO_32 * out + s.value as int && s.carry == (out % 2 == 1)
  {
    hide Pow2;
    Powers(k);
    var high := LeftOut(value, Pow2(k), Pow2(32 - k));
    assert value as int * Pow2(k) == TWO_32 * high + ShiftValue(value, LSL, k, c, immediate).value as int;
  }

  lemma LeftOut(value: Word, p: nat, q: nat) returns (high: nat)
    requires p > 0 && q > 0 && p * q == TWO_32
    ensures high == value / q && value as int * p == TWO_32 * high + Wrap(value as int * p)
  {
    high := value / q;
    var low := value % q;
    assert value as int == q * high + low;
    Distribute(q * high, low, p);
    Reorder(q, high, p);
    Below(low, q, p);
    ByWrap(value as int * p, high, low * p);
  }

  lemma ByWrap(x: int, high: int, rest: int)
    requires x == TWO_32 * high + rest && 0 <= rest < TWO_32
    ensures Wrap(x) == rest
  {
    DivModUnique(x, TWO_32, high, rest);
  }

  /** LSR: result is the quotient by 2^k, and the carry the highest digit of the remainder. */
  lemma RightExact(value: Word, k: nat, c: bool, immediate: bool)
    requires 1 <= k <= 31
    ensures var s := ShiftValue(value, LSR, k, c, immediate); var r := value as int - s.value as int * Pow2(k);
            s.valid && 0 <= r < Pow2(k) && s.carry == (2 * r >= Pow2(k))
  {
    hide Pow2, BitOf;
    QuotientIsWord(value, Pow2(k));
    LastOut(value, k);
  }

  lemma QuotientIsWord(value: Word, p: nat)
    requires p > 0
    ensures Wrap(value / p) == value / p && value as int == (value / p) * p + value % p
  {
    var q := value / p;
    assert value as int == p * q + value % p;
    Reorder(p, q, 1);
    MulMonotone(q, 1, p);
    ByWrap(q, 0, q);
  }

  /** Digit k - 1 is the top digit of the remainder by 2^k. */
  lemma LastOut(value: nat, k: nat)
    requires k >= 1
    ensures BitOf(value, k - 1) == (2 * (value % Pow2(k)) >= Pow2(k))
  {
    Pow2Double(k - 1);
    hide Pow2;
    TopOfRemainder(value, Pow2(k - 1));
  }

  lemma TopOfRemainder(value: nat, p: nat)
    requires p > 0
    ensures (value / p % 2 == 1) == (value % (2 * p) >= p)
  {
    var q, r := value / (2 * p), value % (2 * p);
    var b := if r >= p then 1 else 0;
    assert value == 2 * p * q + r;
    Reorder(p, 2, q);
    Distribute(2 * q, b, p);
    Reorder(2, q, p);
    DivModUnique(value, p, 2 * q + b, r - p * b);
    DivModUnique(2 * q + b, 2, q, b);
  }

  /** ASR: the floor of the signed value divided by 2^k. */
  lemma ArithmeticExact(value: Word, k: nat, c: bool, immediate: bool)
    requires 1 <= k <= 31
    ensures var s := ShiftValue(value, ASR, k, c, immediate); var r := Signed(value) - Signed(s.value) * Pow2(k);
            s.valid && 0 <= r < Pow2(k) && s.carry == (2 * r >= Pow2(k))
  {
    hide Pow2, BitOf, Wrap;
    Powers(k);
    LastOut(value, k);
    SignedQuotient(value, Pow2(k));
    SameRemainder(value, Pow2(k), Pow2(32 - k));
  }

  lemma SignedQuotient(value: Word, p: nat)
    requires p > 0
    ensures Signed(Wrap(Signed(value) / p)) == Signed(value) / p
    ensures Signed(value) == (Signed(value) / p) * p + Signed(value) % p
  {
    var q := Signed(value) / p;
    assert Signed(value) == p * q + Signed(value) % p;
    Reorder(p, q, 1);
    if q >= 0 {
      MulMonotone(q, 1, p);
    } else {
      MulMonotone(-q, 1, p);
      NegatedProduct(q, p);
      FloorNearZero(Signed(value), p, q);
    }
    WrapNear(q);
  }

  lemma NegatedProduct(q: int, p: int)
    ensures -q * p == -(p * q)
  {
  }

  /** The floor of a negative number is at least the number. */
  lemma FloorNearZero(x: int, p: nat, q: int)
    requires p > 0 && q < 0 && p * q <= x < p * q + p
    ensures x < 0 ==> q >= x
    ensures x >= 0 ==> q >= 0
  {
    MulMonotone(-q - 1, 1, p);
    NegatedProduct(q + 1, p);
    Distribute(q, 1, p);
    Reorder(p, q, 1);
  }

  lemma SameRemainder(value: Word, p: nat, h: nat)
    requires p > 0 && p * h == TWO_32
    ensures value % p == Signed(value) % p
  {
    var q, r := Signed(value) / p, Signed(value) % p;
    assert Signed(value) == p * q + r;
    if Negative(value) {
      Distribute(q, h, p);
      DivModUnique(value, p, q + h, r);
    }
  }

  /** ROR: digit i of the result is digit i + k of the value, counted round; the carry is its sign. */
  lemma RotateExact(value: Word, k: nat, c: bool, immediate: bool, i: nat)
    requires k >= 1 && k % 32 != 0 && i < 32
    ensures var s := ShiftValue(value, ROR, k, c, immediate);
            && s.valid && (BitOf(s.value, i) <==> BitOf(value, (i + k) % 32)) && (s.carry <==> BitOf(s.value, 31))
  {
    hide BitOf, Rotr;
    var j := k % 32;
    RotrBits(value, j, i);
    SignBit(Rotr(value, j));
    assert (i + k) % 32 == if i + j < 32 then i + j else i + j - 32;
  }

  lemma RotrBits(value: Word, j: nat, i: nat)
    requires 0 < j < 32 && i < 32
    ensures BitOf(Rotr(value, j), i) <==> BitOf(value, if i + j < 32 then i + j else i + j - 32)
  {
    hide BitOf;
    var hi, lo := value / Pow2(j), value % Pow2(j);
    RotrSplit(value, j);
    SplitBits(lo, hi, 32 - j, i);
    SplitBits(hi, lo, j, if i + j < 32 then i + j else i + j - 32);
  }

  lemma RotrSplit(value: Word, j: nat)
    requires 0 < j < 32
    ensures var hi, lo := value / Pow2(j), value % Pow2(j);
            && 0 <= lo < Pow2(j) && 0 <= hi < Pow2(32 - j)
            && value as int == hi * Pow2(j) + lo && Rotr(value, j) == lo * Pow2(32 - j) + hi
  {
    hide Pow2;
    Powers(j);
    RotatedParts(value, Pow2(j), Pow2(32 - j));
  }

  lemma RotatedParts(value: Word, p: nat, q: nat)
    requires p > 0 && q > 0 && p * q == TWO_32
    ensures var hi, lo := value / p, value % p;
            0 <= hi < q && value as int == hi * p + lo && Wrap(hi + lo * q) == lo * q + hi
  {
    var hi, lo := value / p, value % p;
    assert value as int == p * hi + lo;
    Reorder(p, hi, 1);
    if hi >= q {
      MulMonotone(p, q, hi);
    }
    Below(lo, p, q);
    ByWrap(lo * q + hi, 0, lo * q + hi);
  }

  // ----- The other amounts

  /** Amount 0 by register leaves value and carry alone, for all four kinds, and so does LSL #0. The
      immediate encodings with 0 mean LSR #32, ASR #32 and RRX. */
  lemma ZeroAmount(value: Word, c: bool)
    ensures forall kind :: 0 <= kind < 4 ==> ShiftValue(value, kind, 0, c, false) == Arm7Isa.Shifted(value, c, false)
    ensures ShiftValue(value, LSL, 0, c, true) == Arm7Isa.Shifted(value, c, false)
    ensures ShiftValue(value, LSR, 0, c, true) == Arm7Isa.Shifted(0, Signed(value) < 0, true)
    ensures var s := ShiftValue(value, ASR, 0, c, true); s.valid && Signed(s.value) == (if Signed(value) < 0 then -1 else 0) && s.carry == (Signed(value) < 0)
    ensures var s := ShiftValue(value, ROR, 0, c, true);
            s.valid && 2 * s.value as int + Bit(s.carry) == value as int + TWO_32 * Bit(c)
  {
  }

  /** Amounts from 32 on: left and logical right shifts give zero with the last digit out as carry, or
      none; the arithmetic one the sign; rotations by multiples of 32 the value itself. */
  lemma LargeAmount(value: Word, k: nat, c: bool, immediate: bool)
    requires k >= 32
    ensures ShiftValue(value, LSL, k, c, immediate) == Arm7Isa.Shifted(0, k == 32 && value % 2 == 1, true)
    ensures ShiftValue(value, LSR, k, c, immediate) == Arm7Isa.Shifted(0, k == 32 && Signed(value) < 0, true)
    ensures var s := ShiftValue(value, ASR, k, c, immediate); s.valid && Signed(s.value) == (if Signed(value) < 0 then -1 else 0) && s.carry == (Signed(value) < 0)
    ensures k % 32 == 0 ==> ShiftValue(value, ROR, k, c, immediate) == Arm7Isa.Shifted(value, Signed(value) < 0, true)
  {
  }

  // ----- Bitwise operations

  /** AND, ORR, EOR and MVN digit by digit. */
  lemma BitwiseExact(a: Word, b: Word, i: nat)
    requires i < 32
    ensures BitOf(And(a, b), i) <==> BitOf(a, i) && BitOf(b, i)
    ensures BitOf(Or(a, b), i) <==> BitOf(a, i) || BitOf(b, i)
    ensures BitOf(Xor(a, b), i) <==> BitOf(a, i) != BitOf(b, i)
    ensures BitOf(Not(b), i) <==> !BitOf(b, i)
    ensures BitOf(And(a, Not(b)), i) <==> BitOf(a, i) && !BitOf(b, i)
  {
    Pow2Small();
    hide BitOf, And, Pow2;
    AndBits(a, b, i);
    OrXorBits(a, b, i);
    OrBound(a, b, 32);
    NotBits(b, 32, i);
    AndBits(a, Not(b), i);
  }
}

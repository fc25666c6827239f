/** 32-bit machine words as naturals below 2^32, with the wrap-around written out. */
module Words {
  const TWO_32 := 0x1_0000_0000

  type Word = x: int | 0 <= x < 0x1_0000_0000
  type Half = x: int | 0 <= x < 0x1_0000
  type Byte = x: int | 0 <= x < 0x100

  /** The conversion to `uint32_t`: the value modulo 2^32. */
  function Wrap(x: int): Word {
    x % TWO_32
  }

  /** Unsigned 32-bit addition, subtraction and multiplication. */
  function Plus(a: int, b: int): Word { Wrap(a + b) }

  function Minus(a: int, b: int): Word { Wrap(a - b) }

  function Times(a: int, b: int): Word { Wrap(a * b) }

  /** The conversion to `int32_t`: two's complement reading of a word. */
  function Signed(w: Word): int {
    if w < 0x8000_0000 then w else w - TWO_32
  }

  /** Bit 31. */
  predicate Negative(w: Word) {
    w >= 0x8000_0000
  }

  /** One turn of wrap-around at either end. */
  lemma WrapNear(x: int)
    requires -TWO_32 <= x < 2 * TWO_32
    ensures Wrap(x) == if x < 0 then x + TWO_32 else if x < TWO_32 then x else x - TWO_32
  {
  }

  function Abs(x: int): int { if x < 0 then -x else x }

  function Bit(b: bool): int {
    if b then 1 else 0
  }

  function Pow2(k: nat): (p: nat)
    ensures p >= 1
  {
    if k == 0 then 1 else 2 * Pow2(k - 1)
  }

  /** Binary digit k. */
  function BitOf(w: nat, k: nat): bool { w / Pow2(k) % 2 == 1 }

  /** Bitwise AND of two naturals, by recursion on their binary digits. */
  function And(x: nat, y: nat): (z: nat)
    ensures z <= x && z <= y
    decreases x
  {
    if x == 0 || y == 0 then 0
    else (x % 2) * (y % 2) + 2 * And(x / 2, y / 2)
  }

  /** Masking with 2^k - 1 is reduction modulo 2^k. */
  lemma {:induction false} AndLowMask(x: nat, k: nat)
    ensures And(x, Pow2(k) - 1) == x % Pow2(k)
    decreases k
  {
    if k == 0 {
    } else if x == 0 {
    } else {
      var half := Pow2(k - 1);
      AndLowMask(x / 2, k - 1);
      assert (Pow2(k) - 1) / 2 == half - 1 && (Pow2(k) - 1) % 2 == 1;
      ModDouble(x, half);
    }
  }

  lemma ModDouble(x: nat, half: nat)
    requires half > 0
    ensures x % (2 * half) == x % 2 + 2 * (x / 2 % half)
  {
    var q, r := x / 2 / half, x / 2 % half;
    assert x == (2 * half) * q + (2 * r + x % 2);
    DivModUnique(x, 2 * half, q, 2 * r + x % 2);
  }

  /** Euclidean quotient and remainder are determined by their defining equation. */
  lemma DivModUnique(x: int, d: int, q: int, r: int)
    requires 0 <= r < d && x == d * q + r
    ensures x / d == q && x % d == r
  {
    var q', r' := x / d, x % d;
    assert x == d * q' + r';
    assert d * (q - q') == r' - r by {
      assert d * (q - q') == d * q - d * q';
    }
    SmallMultiple(d, q - q');
  }

  lemma SmallMultiple(d: int, k: int)
    requires -d < d * k < d
    ensures k == 0
  {
    if k >= 1 {
      MulMonotone(d, 1, k);
    } else if k <= -1 {
      MulMonotone(d, k, -1);
    }
  }

  lemma MulMonotone(d: nat, a: int, b: int)
    requires a <= b
    ensures d * a <= d * b
  {
  }

  lemma {:induction false} Pow2Add(a: nat, b: nat)
    ensures Pow2(a + b) == Pow2(a) * Pow2(b)
    decreases a
  {
    if a > 0 {
      Pow2Add(a - 1, b);
      calc {
        Pow2(a + b);
        2 * (Pow2(a - 1) * Pow2(b));
        Pow2(a) * Pow2(b);
      }
    }
  }

  lemma {:induction false} Pow2Monotone(a: nat, b: nat)
    requires a < b
    ensures 2 * Pow2(a) <= Pow2(b)
    decreases b
  {
    if a + 1 < b {
      Pow2Monotone(a, b - 1);
    }
  }

  lemma PlusTwice(a: int, x: int, y: int)
    ensures Plus(Plus(a, x), y) == Plus(a, x + y)
  {
  }

  /** A word from its four bytes. */
  lemma BytesOfWord(v: Word)
    ensures v == v % 0x100 + 0x100 * (v / 0x100 % 0x100)
                 + 0x1_0000 * (v / 0x1_0000 % 0x100) + 0x100_0000 * (v / 0x100_0000)
  {
  }

  lemma Pow2Small()
    ensures Pow2(30) == 0x4000_0000 && Pow2(31) == 0x8000_0000 && Pow2(32) == TWO_32 && Pow2(33) == 2 * TWO_32
  {
    assert Pow2(5) == 32;
    Pow2Add(5, 5);
    Pow2Add(10, 10);
    Pow2Add(20, 10);
    assert Pow2(31) == 2 * Pow2(30) && Pow2(32) == 2 * Pow2(31) && Pow2(33) == 2 * Pow2(32);
  }

  /** x and y are the same modulo 2^32. */
  predicate Congruent(x: int, y: int) { (x - y) % TWO_32 == 0 }

  lemma WrapCongruent(x: int)
    ensures Congruent(Wrap(x), x)
  {
    var q := x / TWO_32;
    assert x == TWO_32 * q + Wrap(x);
    DivModUnique(Wrap(x) - x, TWO_32, -q, 0);
  }
}

/** Binary digits: splitting numbers, and the bitwise operations digit by digit. */
module Bits {
  import opened Words

  lemma DivTwice(x: nat, a: nat, b: nat)
    requires a > 0 && b > 0
    ensures x / a / b == x / (a * b)
  {
    var q, r := x / a, x % a;
    var q', r' := q / b, q % b;
    assert x == a * q + r && q == b * q' + r';
    MulMonotone(a, r', b - 1);
    assert x == a * b * q' + (a * r' + r) by {
      assert a * (b * q' + r') == a * b * q' + a * r';
    }
    assert a * r' + r < a * b by {
      assert a * (b - 1) == a * b - a;
    }
    DivModUnique(x, a * b, q', a * r' + r);
  }

  lemma FirstBit(w: nat)
    ensures BitOf(w, 0) == (w % 2 == 1)
  {
    assert Pow2(0) == 1;
  }

  lemma NextBit(w: nat, i: nat)
    ensures BitOf(w, i + 1) == BitOf(w / 2, i)
  {
    DivTwice(w, 2, Pow2(i));
  }

  lemma NoBits(i: nat)
    ensures !BitOf(0, i)
  {
    DivModUnique(0, Pow2(i), 0, 0);
  }

  // ----- The bitwise operations

  lemma {:induction false} AndBits(x: nat, y: nat, i: nat)
    ensures BitOf(And(x, y), i) <==> BitOf(x, i) && BitOf(y, i)
    decreases i
  {
    hide BitOf;
    if x == 0 || y == 0 {
      NoBits(i);
    } else if i == 0 {
      FirstBit(x);
      FirstBit(y);
      FirstBit(And(x, y));
      AndHalves(x, y);
    } else {
      AndHalves(x, y);
      NextBit(x, i - 1);
      NextBit(y, i - 1);
      NextBit(And(x, y), i - 1);
      AndBits(x / 2, y / 2, i - 1);
    }
  }

  lemma AndHalves(x: nat, y: nat)
    requires x > 0 && y > 0
    ensures And(x, y) / 2 == And(x / 2, y / 2)
    ensures And(x, y) % 2 == 1 <==> x % 2 == 1 && y % 2 == 1
  {
    var a, b := x % 2, y % 2;
    assert a * b == if a == 1 && b == 1 then 1 else 0;
    DivModUnique(And(x, y), 2, And(x / 2, y / 2), a * b);
  }

  /** x + y - And(x, y) is the bitwise OR, x + y - 2 * And(x, y) the exclusive one. */
  lemma {:induction false} OrXorBits(x: nat, y: nat, i: nat)
    ensures And(x, y) <= x && And(x, y) <= y
    ensures BitOf(x + y - And(x, y), i) <==> BitOf(x, i) || BitOf(y, i)
    ensures BitOf(x + y - 2 * And(x, y), i) <==> BitOf(x, i) != BitOf(y, i)
    decreases i
  {
    hide BitOf;
    if x == 0 || y == 0 {
      NoBits(i);
    } else {
      AndHalves(x, y);
      var r, e := x + y - And(x, y), x + y - 2 * And(x, y);
      OrXorHalves(x, y);
      if i == 0 {
        FirstBit(x);
        FirstBit(y);
        FirstBit(r);
        FirstBit(e);
      } else {
        NextBit(x, i - 1);
        NextBit(y, i - 1);
        NextBit(r, i - 1);
        NextBit(e, i - 1);
        OrXorBits(x / 2, y / 2, i - 1);
      }
    }
  }

  lemma OrXorHalves(x: nat, y: nat)
    requires x > 0 && y > 0
    ensures var r, e, h := x + y - And(x, y), x + y - 2 * And(x, y), And(x / 2, y / 2);
            && r / 2 == x / 2 + y / 2 - h && (r % 2 == 1 <==> x % 2 == 1 || y % 2 == 1)
            && e / 2 == x / 2 + y / 2 - 2 * h && (e % 2 == 1 <==> (x % 2 == 1) != (y % 2 == 1))
  {
    AndHalves(x, y);
    var a, b, h := x % 2, y % 2, And(x / 2, y / 2);
    var c := if a == 1 && b == 1 then 1 else 0;
    assert And(x, y) == 2 * h + c;
    DivModUnique(x + y - And(x, y), 2, x / 2 + y / 2 - h, a + b - c);
    DivModUnique(x + y - 2 * And(x, y), 2, x / 2 + y / 2 - 2 * h, a + b - 2 * c);
  }

  lemma {:induction false} NotBits(x: nat, k: nat, i: nat)
    requires x < Pow2(k) && i < k
    ensures BitOf(Pow2(k) - 1 - x, i) <==> !BitOf(x, i)
    decreases k
  {
    hide BitOf;
    var y := Pow2(k) - 1 - x;
    NotHalves(x, k);
    if i == 0 {
      FirstBit(x);
      FirstBit(y);
    } else {
      NextBit(x, i - 1);
      NextBit(y, i - 1);
      NotBits(x / 2, k - 1, i - 1);
    }
  }

  lemma NotHalves(x: nat, k: nat)
    requires k > 0 && x < Pow2(k)
    ensures var y := Pow2(k) - 1 - x;
            y / 2 == Pow2(k - 1) - 1 - x / 2 && (y % 2 == 1 <==> x % 2 != 1) && x / 2 < Pow2(k - 1)
  {
    DivModUnique(Pow2(k) - 1 - x, 2, Pow2(k - 1) - 1 - x / 2, 1 - x % 2);
  }

  /** OR and exclusive OR stay within as many digits. */
  lemma {:induction false} OrBound(x: nat, y: nat, k: nat)
    requires x < Pow2(k) && y < Pow2(k)
    ensures 0 <= x + y - 2 * And(x, y) <= x + y - And(x, y) < Pow2(k)
    decreases k
  {
    if x > 0 && y > 0 {
      OrXorHalves(x, y);
      OrBound(x / 2, y / 2, k - 1);
    }
  }

  // ----- Splitting

  /** The digits of hi * 2^k + lo: those of lo below k, those of hi from k on. */
  lemma SplitBits(hi: nat, lo: nat, k: nat, i: nat)
    requires lo < Pow2(k)
    ensures BitOf(hi * Pow2(k) + lo, i) == if i < k then BitOf(lo, i) else BitOf(hi, i - k)
  {
    hide Pow2;
    if i < k {
      Pow2Add(k - i, i);
      Pow2Double(k - i - 1);
      LowDigit(hi, lo, Pow2(i), Pow2(k - i - 1));
    } else {
      Pow2Add(k, i - k);
      DivTwice(hi * Pow2(k) + lo, Pow2(k), Pow2(i - k));
      DivModUnique(hi * Pow2(k) + lo, Pow2(k), hi, lo);
    }
  }

  lemma LowDigit(hi: nat, lo: nat, p: nat, c: nat)
    requires p > 0
    ensures (hi * (2 * c * p) + lo) / p % 2 == lo / p % 2
  {
    var q, r := lo / p, lo % p;
    assert lo == p * q + r;
    Regrouped(hi, c, p, q);
    DivModUnique(hi * (2 * c * p) + lo, p, 2 * (hi * c) + q, r);
    DivModUnique(2 * (hi * c) + q, 2, hi * c + q / 2, q % 2);
  }

  lemma Regrouped(hi: nat, c: nat, p: nat, q: nat)
    ensures hi * (2 * c * p) + p * q == p * (2 * (hi * c) + q)
  {
    assert hi * (2 * c * p) == 2 * (hi * (c * p)) && hi * (c * p) == (hi * c) * p;
    assert p * (2 * (hi * c) + q) == p * (2 * (hi * c)) + p * q;
  }

  lemma Pow2Double(k: nat)
    ensures Pow2(k + 1) == 2 * Pow2(k)
  {
  }

  /** Digit 31 of a word is its sign. */
  lemma SignBit(w: Word)
    ensures BitOf(w, 31) == Negative(w)
  {
    Pow2Small();
    hide Pow2;
  }

  /** A word is determined by its digits. */
  lemma {:induction false} SameBits(x: nat, y: nat, k: nat)
    requires x < Pow2(k) && y < Pow2(k) && forall i :: 0 <= i < k ==> BitOf(x, i) == BitOf(y, i)
    ensures x == y
    decreases k
  {
    hide BitOf;
    if k > 0 {
      FirstBit(x);
      FirstBit(y);
      forall i | 0 <= i < k - 1
        ensures BitOf(x / 2, i) == BitOf(y / 2, i)
      {
        NextBit(x, i);
        NextBit(y, i);
      }
      SameBits(x / 2, y / 2, k - 1);
    }
  }
}

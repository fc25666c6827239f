/** Multi-word numbers, least significant limb first. */
module Limbs {
  import opened Words

  function Value(xs: seq<Word>): nat {
    if xs == [] then 0 else xs[0] + TWO_32 * Value(xs[1..])
  }

  function Radix(n: nat): (r: nat)
    ensures r >= 1
  {
    if n == 0 then 1 else TWO_32 * Radix(n - 1)
  }

  lemma Regroup(r: int, b: int)
    requires 0 <= b <= 1
    ensures TWO_32 * (r * b) == TWO_32 * r * b
  {
  }

  lemma {:induction false} ValueBound(xs: seq<Word>)
    ensures Value(xs) < Radix(|xs|)
  {
    if xs != [] {
      ValueBound(xs[1..]);
      MulMonotone(TWO_32, Value(xs[1..]), Radix(|xs| - 1) - 1);
    }
  }

  /** Limb-wise addition with the carries handed on is the sum. */
  lemma {:induction false} SumOfLimbs(xs: seq<Word>, ys: seq<Word>, zs: seq<Word>, cs: seq<bool>)
    requires |xs| == |ys| == |zs| && |cs| == |xs| + 1
    requires forall k, l :: 0 <= k < |xs| && l == k + 1 ==> zs[k] + TWO_32 * Bit(cs[l]) == xs[k] + ys[k] + Bit(cs[k])
    ensures Value(zs) + Radix(|xs|) * Bit(cs[|xs|]) == Value(xs) + Value(ys) + Bit(cs[0])
  {
    if xs != [] {
      forall k, l | 0 <= k < |xs| - 1 && l == k + 1
        ensures zs[1..][k] + TWO_32 * Bit(cs[1..][l]) == xs[1..][k] + ys[1..][k] + Bit(cs[1..][k])
      {
        assert zs[l] + TWO_32 * Bit(cs[l + 1]) == xs[l] + ys[l] + Bit(cs[l]);
      }
      SumOfLimbs(xs[1..], ys[1..], zs[1..], cs[1..]);
      assert zs[0] + TWO_32 * Bit(cs[1]) == xs[0] + ys[0] + Bit(cs[0]);
      Regroup(Radix(|xs| - 1), Bit(cs[|xs|]));
    }
  }

  /** Limb-wise subtraction with the borrows handed on is the difference, and the last borrow says that
      the first number was too small. */
  lemma {:induction false} DifferenceOfLimbs(xs: seq<Word>, ys: seq<Word>, zs: seq<Word>, bs: seq<bool>)
    requires |xs| == |ys| == |zs| && |bs| == |xs| + 1
    requires forall k, l :: 0 <= k < |xs| && l == k + 1 ==> zs[k] - TWO_32 * Bit(bs[l]) == xs[k] - ys[k] - Bit(bs[k])
    ensures Value(zs) - Radix(|xs|) * Bit(bs[|xs|]) == Value(xs) - Value(ys) - Bit(bs[0])
    ensures bs[|xs|] <==> Value(xs) < Value(ys) + Bit(bs[0])
  {
    ValueBound(zs);
    if xs != [] {
      forall k, l | 0 <= k < |xs| - 1 && l == k + 1
        ensures zs[1..][k] - TWO_32 * Bit(bs[1..][l]) == xs[1..][k] - ys[1..][k] - Bit(bs[1..][k])
      {
        assert zs[l] - TWO_32 * Bit(bs[l + 1]) == xs[l] - ys[l] - Bit(bs[l]);
      }
      DifferenceOfLimbs(xs[1..], ys[1..], zs[1..], bs[1..]);
      assert zs[0] - TWO_32 * Bit(bs[1]) == xs[0] - ys[0] - Bit(bs[0]);
      Regroup(Radix(|xs| - 1), Bit(bs[|xs|]));
    }
  }
}

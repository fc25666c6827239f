/** The SH-4 division idioms compute division. */
module Sh4Division {
  import opened Options
  import opened Words
  import opened Memory
  import opened Sh4Isa
  import opened Sh4Program

  /** Division rounding toward zero. */
  function Quotient(x: int, d: int): int
    requires d != 0
  {
    if (x < 0) == (d < 0) then Abs(x) / Abs(d) else -(Abs(x) / Abs(d))
  }

  /** The partial remainder Q:Rhi as a 33-bit two's complement number. */
  function Remainder(cpu: Cpu, hi: RegIndex): int {
    cpu.r[hi] - TWO_32 * Bit(cpu.sr.q)
  }

  /** The divisor M:Rd as a 33-bit two's complement number. */
  function Divisor(cpu: Cpu, d: RegIndex): int {
    cpu.r[d] - TWO_32 * Bit(cpu.sr.m)
  }

  ghost predicate Distinct(hi: RegIndex, lo: RegIndex, d: RegIndex) {
    hi != lo && hi != d && lo != d
  }

  /** The interval the partial remainder lives in. */
  ghost predicate InRange(w: int, D: int) {
    -Abs(D) <= w < Abs(D)
  }

  // ----- A register divided by itself

  /** DIV1 Rn,Rn subtracts or adds the word that is already shifted: Rn becomes zero, or is shifted once
      more; Q takes the sign, flipped by M and by what the addition carries out. */
  lemma Div1SameRegister(decode: Decoder, cpu: Cpu, pc: Word, n: RegIndex)
    requires Fits(decode, |cpu.mem.ram|)
    ensures var step, shifted := Exec(decode, cpu, pc, DIV1(n, n), false), Wrap(2 * cpu.r[n] as int + Bit(cpu.sr.t));
            var carry := cpu.sr.q != cpu.sr.m && Negative(shifted);
            var q := Negative(cpu.r[n]) != (cpu.sr.m != carry);
            && step.signal == Next
            && step.cpu == cpu.(sr := cpu.sr.(q := q, t := q == cpu.sr.m),
                                r := cpu.r[n := if cpu.sr.q == cpu.sr.m then 0 else Wrap(2 * shifted as int)])
  {
    hide Exec, DIV1, Wrap, Negative, DivideStep;
    DecodeDiv1(decode, cpu, pc, n, n);
    ShiftedWord(cpu.r[n], cpu.sr.t);
    DivideItself(cpu.r[n], cpu.sr.t, cpu.sr.q, cpu.sr.m);
  }

  lemma ShiftedWord(rn: Word, t: bool)
    ensures Plus(Times(2, rn), Bit(t)) == Wrap(2 * rn as int + Bit(t))
  {
    hide Wrap;
    PlusTwice(rn, rn as int, Bit(t));
  }

  lemma DivideItself(rn: Word, t: bool, q: bool, m: bool)
    ensures var shifted := Wrap(2 * rn as int + Bit(t)); var carry := q != m && Negative(shifted);
            DivideStep(rn, t, q, m, shifted) == (if q == m then 0 else Wrap(2 * shifted as int), Negative(rn) != (m != carry))
  {
    var s := Wrap(2 * rn as int + Bit(t));
    Doubled(rn, t);
    Doubled(s, false);
    hide Wrap;
    if q == m {
      LowAndHigh(0, Bit(Negative(rn)) + Bit(m));
    } else {
      LowAndHigh(Wrap(2 * s as int), Bit(Negative(s)) + Bit(Negative(rn)) - Bit(m));
    }
  }

  lemma Doubled(w: Word, t: bool)
    ensures 2 * w as int + Bit(t) == TWO_32 * Bit(Negative(w)) + Wrap(2 * w as int + Bit(t))
  {
    WrapNear(2 * w as int + Bit(t));
  }

  /** The low word and the 33rd bit of a number. */
  lemma LowAndHigh(low: Word, j: int)
    ensures var w := (low as int + TWO_32 * j) % (2 * TWO_32); 0 <= w && Wrap(w) == low && (w >= TWO_32 <==> j % 2 == 1)
  {
    DivModUnique(low as int + TWO_32 * j, 2 * TWO_32, j / 2, low as int + TWO_32 * (j % 2));
    DivModUnique(low as int + TWO_32 * (j % 2), TWO_32, j % 2, low);
  }

  // ----- One round: ROTCL lo; DIV1 d,hi

  function Round(cpu: Cpu, hi: RegIndex, lo: RegIndex, d: RegIndex): Cpu {
    Div1(Rotcl(cpu, lo), hi, d)
  }

  function Rounds(cpu: Cpu, hi: RegIndex, lo: RegIndex, d: RegIndex, k: nat): (out: Cpu)
    ensures out.mem == cpu.mem
  {
    if k == 0 then cpu else Round(Rounds(cpu, hi, lo, d, k - 1), hi, lo, d)
  }

  /** On 33-bit numbers: from inside the interval, a step stays inside it, and the wrapped
      result is the exact one. */
  lemma StepStaysInRange(rn: Word, bit: bool, q: bool, m: bool, d: Word)
    requires var D := d - TWO_32 * Bit(m); D != 0 && InRange(rn - TWO_32 * Bit(q), D) && (D < 0) == m
    ensures var D, w := d - TWO_32 * Bit(m), rn - TWO_32 * Bit(q);
            var (rn', q') := DivideStep(rn, bit, q, m, d);
            var w' := rn' - TWO_32 * Bit(q');
            w' == 2 * w + Bit(bit) + (if q == m then -D else D) && InRange(w', D)
  {
    var D, w := d - TWO_32 * Bit(m), rn - TWO_32 * Bit(q);
    var moved := 2 * w + Bit(bit) + (if q == m then -D else D);
    var turns := Bit(q) - Bit(moved < 0);
    var low := moved + 2 * TWO_32 * Bit(moved < 0);
    DivModUnique(moved + 2 * TWO_32 * Bit(q), 2 * TWO_32, turns, low);
    WrapNear(low);
  }

  /** A round brings in the next dividend bit and moves by the divisor towards zero. */
  lemma RoundRemainder(cpu: Cpu, hi: RegIndex, lo: RegIndex, d: RegIndex)
    requires Distinct(hi, lo, d)
    requires var D := Divisor(cpu, d); D != 0 && InRange(Remainder(cpu, hi), D) && (D < 0) == cpu.sr.m
    ensures var D, w, bit := Divisor(cpu, d), Remainder(cpu, hi), Bit(Negative(cpu.r[lo]));
            var next := Round(cpu, hi, lo, d);
            && Remainder(next, hi) == 2 * w + bit + (if cpu.sr.q == cpu.sr.m then -D else D)
            && InRange(Remainder(next, hi), D)
            && Divisor(next, d) == D
            && next.sr.t == (next.sr.q == cpu.sr.m)
            && next.r[lo] == Wrap(2 * cpu.r[lo] + Bit(cpu.sr.t))
            && Framed(cpu, next, hi, lo)
  {
    hide DivideStep, InRange;
    StepStaysInRange(cpu.r[hi], Negative(cpu.r[lo]), cpu.sr.q, cpu.sr.m, cpu.r[d]);
    var mid := Rotcl(cpu, lo);
    assert mid.sr.t == Negative(cpu.r[lo]);
    hide Wrap, Negative, Rotcl;
  }

  /** Only the two dividend registers, Q and T may differ. */
  ghost predicate Framed(cpu: Cpu, cpu': Cpu, hi: RegIndex, lo: RegIndex) {
    cpu' == cpu.(r := cpu.r[hi := cpu'.r[hi]][lo := cpu'.r[lo]], sr := cpu.sr.(q := cpu'.sr.q, t := cpu'.sr.t))
  }

  /** The digit recurrence after k rounds: of the dividend X the top part N has been consumed,
      `rest` is still in the low register r, above the quotient bits B shifted in so far. The
      bits of B stand for digits +1 and -1 whose sum is `DigitValue`; w is the remainder. */
  ghost predicate Digits(X: int, D: int, t0: bool, k: nat, w: int, r: Word, t: bool, same: bool, N: int, rest: nat, B: nat)
    requires k <= 32
  {
    && X == N * Pow2(32 - k) + rest && rest < Pow2(32 - k)
    && r == rest * Pow2(k) + B
    && LeadBit(k, t0, B)
    && N == w + D * DigitValue(k, t0, B)
    && (if k == 0 then t == t0 == !same else t == same)
  }

  function DigitValue(k: nat, t0: bool, B: nat): int {
    if k == 0 then 0 else 2 * B + 1 - Bit(t0) * Pow2(k + 1)
  }

  /** B has k bits and the first bit shifted in, t0, on top. */
  ghost predicate LeadBit(k: nat, t0: bool, B: nat) {
    if k == 0 then B == 0 else Bit(t0) * Pow2(k - 1) <= B < Bit(t0) * Pow2(k - 1) + Pow2(k - 1)
  }

  /** The shift of the low register moves one dividend bit out at the top. */
  lemma ShiftDigits(k: nat, rest: nat, B: nat, r: Word, t: bool)
    requires k < 32 && rest < Pow2(32 - k) && B < Pow2(k) && r == rest * Pow2(k) + B
    ensures var half := Pow2(31 - k);
            var bit := Bit(rest >= half);
            && Negative(r) == (rest >= half) && 0 <= rest - bit * half < half
            && Wrap(2 * r + Bit(t)) == (rest - bit * half) * Pow2(k + 1) + (2 * B + Bit(t))
  {
    Pow2Add(31 - k, k);
    Pow2Small();
    Pow2Double(31 - k);
    Pow2Double(k);
    ShiftNumbers(rest, B, r, Bit(t), Pow2(31 - k), Pow2(k));
    hide Pow2;
    var rest' := rest - Bit(rest >= Pow2(31 - k)) * Pow2(31 - k);
    assert rest' * Pow2(k + 1) == rest' * (2 * Pow2(k));
  }

  lemma ShiftNumbers(rest: nat, B: nat, r: Word, low: int, half: int, p: int)
    requires rest < 2 * half && B < p && r == rest * p + B && half * p == 0x8000_0000 && 0 <= low <= 1
    ensures var rest' := rest - Bit(rest >= half) * half;
            && Negative(r) == (rest >= half)
            && Wrap(2 * r + low) == rest' * (2 * p) + (2 * B + low)
  {
    var bit := Bit(rest >= half);
    var rest' := rest - bit * half;
    TopSplit(rest, rest', bit, half, p, B);
    TopBitOut(r, bit, rest' * p + B, low);
    assert rest' * (2 * p) == 2 * (rest' * p);
  }

  lemma TopSplit(rest: int, rest': int, bit: int, half: int, p: int, B: int)
    requires 0 <= rest' < half && 0 <= B < p && rest == rest' + bit * half
    ensures rest * p == rest' * p + bit * (half * p)
    ensures 0 <= rest' * p + B < half * p
  {
    assert bit * half * p == bit * (half * p);
    assert (rest' + bit * half) * p == rest' * p + bit * half * p;
    MulMonotone(p, rest', half - 1);
    assert p * (half - 1) == half * p - p;
  }

  /** Shifting a word left: its top bit goes, the rest doubles. */
  lemma TopBitOut(r: Word, top: int, rest: int, low: int)
    requires 0 <= top <= 1 && 0 <= low <= 1 && 0 <= rest < 0x8000_0000 && r == rest + top * 0x8000_0000
    ensures Negative(r) == (top == 1) && Wrap(2 * r + low) == 2 * rest + low
  {
  }

  /** Appending a quotient bit doubles the digit sum and adds the digit +1 or -1. */
  lemma AppendDigit(D: int, k: nat, t0: bool, B: nat, t: bool, same: bool)
    requires LeadBit(k, t0, B)
    requires if k == 0 then t == t0 && t == !same else t == same
    ensures D * DigitValue(k + 1, t0, 2 * B + Bit(t)) == 2 * (D * DigitValue(k, t0, B)) + (if same then D else -D)
    ensures LeadBit(k + 1, t0, 2 * B + Bit(t))
  {
    DigitRecurrence(k, t0, B, t, same);
    hide *;
    ScaleDigit(D, DigitValue(k, t0, B), DigitValue(k + 1, t0, 2 * B + Bit(t)), same);
  }

  lemma DigitRecurrence(k: nat, t0: bool, B: nat, t: bool, same: bool)
    requires LeadBit(k, t0, B)
    requires if k == 0 then t == t0 && t == !same else t == same
    ensures DigitValue(k + 1, t0, 2 * B + Bit(t)) == 2 * DigitValue(k, t0, B) + (if same then 1 else -1)
    ensures LeadBit(k + 1, t0, 2 * B + Bit(t))
  {
    Pow2Double(k + 1);
    Pow2Double(k);
    assert k > 0 ==> Pow2(k) == 2 * Pow2(k - 1);
    assert Pow2(0) == 1;
    hide Pow2;
  }

  lemma ScaleDigit(D: int, S: int, S': int, same: bool)
    requires S' == 2 * S + (if same then 1 else -1)
    ensures D * S' == 2 * (D * S) + (if same then D else -D)
  {
  }

  lemma ConsumeBit(N: int, rest: int, half: int, bit: int)
    ensures N * (2 * half) + rest == (2 * N + bit) * half + (rest - bit * half)
  {
  }

  /** The round that follows k others consumes one more dividend bit and appends one quotient bit. */
  lemma DigitsStep(X: int, D: int, t0: bool, k: nat, w: int, r: Word, t: bool, same: bool, N: int, rest: nat, B: nat,
                   w': int, r': Word, same': bool)
    returns (N': int, rest': nat, B': nat)
    requires k < 32 && Digits(X, D, t0, k, w, r, t, same, N, rest, B)
    requires w' == 2 * w + Bit(Negative(r)) + (if same then -D else D)
    requires r' == Wrap(2 * r + Bit(t))
    ensures Digits(X, D, t0, k + 1, w', r', same', same', N', rest', B')
  {
    LeadBitBound(k, t0, B);
    var half := Pow2(31 - k);
    Pow2Double(31 - k);
    ShiftDigits(k, rest, B, r, t);
    var bit := Bit(rest >= half);
    N', rest', B' := 2 * N + bit, rest - bit * half, 2 * B + Bit(t);
    ConsumeBit(N, rest, half, bit);
    AppendDigit(D, k, t0, B, t, same);
    hide InRange, Wrap, Pow2, DigitValue, LeadBit, Negative;
  }

  /** The recurrence read off the processor state after k rounds from cpu0. */
  ghost predicate DigitState(cpu0: Cpu, cpu: Cpu, hi: RegIndex, lo: RegIndex, d: RegIndex, k: nat, N: int, rest: nat, B: nat)
    requires k <= 32
  {
    var X, D := Remainder(cpu0, hi) * TWO_32 + cpu0.r[lo], Divisor(cpu0, d);
    && Digits(X, D, cpu0.sr.t, k, Remainder(cpu, hi), cpu.r[lo], cpu.sr.t, cpu.sr.q == cpu.sr.m, N, rest, B)
    && InRange(Remainder(cpu, hi), D)
    && Divisor(cpu, d) == D
    && Framed(cpu0, cpu, hi, lo)
  }

  /** Remainder in range, divisor nonzero and with the sign M says: what DIV0U and DIV0S establish. */
  ghost predicate Ready(cpu: Cpu, hi: RegIndex, lo: RegIndex, d: RegIndex) {
    var D := Divisor(cpu, d);
    && Distinct(hi, lo, d)
    && D != 0 && InRange(Remainder(cpu, hi), D) && (D < 0) == cpu.sr.m
    && cpu.sr.t == (cpu.sr.q != cpu.sr.m)
  }

  lemma {:induction false} RoundsDigits(cpu: Cpu, hi: RegIndex, lo: RegIndex, d: RegIndex, k: nat)
    returns (N: int, rest: nat, B: nat)
    requires k <= 32 && Ready(cpu, hi, lo, d)
    ensures DigitState(cpu, Rounds(cpu, hi, lo, d, k), hi, lo, d, k, N, rest, B)
  {
    hide Round, Ready, DigitState;
    if k == 0 {
      N, rest, B := FirstDigits(cpu, hi, lo, d);
    } else {
      var N0, rest0, B0 := RoundsDigits(cpu, hi, lo, d, k - 1);
      N, rest, B := NextDigits(cpu, Rounds(cpu, hi, lo, d, k - 1), hi, lo, d, k - 1, N0, rest0, B0);
    }
  }

  lemma FirstDigits(cpu: Cpu, hi: RegIndex, lo: RegIndex, d: RegIndex) returns (N: int, rest: nat, B: nat)
    requires Ready(cpu, hi, lo, d)
    ensures DigitState(cpu, cpu, hi, lo, d, 0, N, rest, B)
  {
    hide InRange, Pow2, Remainder, Divisor, DigitValue, LeadBit;
    N, rest, B := Remainder(cpu, hi), cpu.r[lo], 0;
    Pow2Small();
    EmptyDigits(cpu.sr.t);
  }

  lemma NextDigits(cpu0: Cpu, cpu: Cpu, hi: RegIndex, lo: RegIndex, d: RegIndex, k: nat, N: int, rest: nat, B: nat)
    returns (N': int, rest': nat, B': nat)
    requires k < 32 && Ready(cpu0, hi, lo, d) && DigitState(cpu0, cpu, hi, lo, d, k, N, rest, B)
    ensures DigitState(cpu0, Round(cpu, hi, lo, d), hi, lo, d, k + 1, N', rest', B')
  {
    hide Round, InRange, Digits, Negative, Wrap;
    RoundRemainder(cpu, hi, lo, d);
    var next := Round(cpu, hi, lo, d);
    var X, D := Remainder(cpu0, hi) * TWO_32 + cpu0.r[lo], Divisor(cpu0, d);
    N', rest', B' := DigitsStep(X, D, cpu0.sr.t, k, Remainder(cpu, hi), cpu.r[lo], cpu.sr.t,
                                cpu.sr.q == cpu.sr.m, N, rest, B,
                                Remainder(next, hi), next.r[lo], next.sr.q == next.sr.m);
  }

  lemma Pow2Double(k: nat)
    ensures Pow2(k + 1) == 2 * Pow2(k)
  {
  }

  lemma EmptyDigits(t0: bool)
    ensures DigitValue(0, t0, 0) == 0 && LeadBit(0, t0, 0) && Pow2(0) == 1
  {
  }

  lemma LeadBitBound(k: nat, t0: bool, B: nat)
    requires LeadBit(k, t0, B)
    ensures B < Pow2(k)
  {
  }

  /** The quotient in T:Rlo, one higher when the last remainder lacks the divisor's sign. */
  function QuotientBits(out: Cpu, lo: RegIndex): int {
    out.r[lo] - TWO_32 * Bit(out.sr.t) + Bit(out.sr.q != out.sr.m)
  }

  /** After 32 rounds and a last ROTCL, low register and T hold the quotient bits and
      X = D * (quotient or quotient + 1) + remainder. */
  lemma AfterRounds(cpu: Cpu, hi: RegIndex, lo: RegIndex, d: RegIndex)
    requires Ready(cpu, hi, lo, d)
    ensures DividedBy(cpu, Rotcl(Rounds(cpu, hi, lo, d, 32), lo), hi, lo, d)
  {
    var N, rest, B := RoundsDigits(cpu, hi, lo, d, 32);
    hide Rounds;
    LastDigits(cpu, Rounds(cpu, hi, lo, d, 32), hi, lo, d, N, rest, B);
  }

  ghost predicate DividedBy(cpu: Cpu, out: Cpu, hi: RegIndex, lo: RegIndex, d: RegIndex) {
    var X, D := Remainder(cpu, hi) * TWO_32 + cpu.r[lo], Divisor(cpu, d);
    && out.sr.t == cpu.sr.t
    && X == D * QuotientBits(out, lo) + Remainder(out, hi)
    && InRange(Remainder(out, hi), D)
    && Framed(cpu, out, hi, lo)
  }

  /** The last ROTCL turns the digit sum into the quotient register. */
  lemma LastDigits(cpu: Cpu, mid: Cpu, hi: RegIndex, lo: RegIndex, d: RegIndex, N: int, rest: nat, B: nat)
    requires Ready(cpu, hi, lo, d) && DigitState(cpu, mid, hi, lo, d, 32, N, rest, B)
    ensures DividedBy(cpu, Rotcl(mid, lo), hi, lo, d)
  {
    hide InRange, Divisor, DigitValue, LeadBit, Wrap, Negative, Pow2;
    Pow2Small();
    EmptyDigits(cpu.sr.t);
    LastShift(cpu.sr.t, B, mid.sr.t);
    var out := Rotcl(mid, lo);
    assert mid.r[lo] == B && rest == 0;
    assert DigitValue(32, cpu.sr.t, B) == QuotientBits(out, lo);
  }

  lemma LastShift(t0: bool, B: nat, t: bool)
    requires LeadBit(32, t0, B)
    ensures B < TWO_32 && (2 * B + Bit(t) >= TWO_32) == t0
    ensures DigitValue(32, t0, B) == Wrap(2 * B + Bit(t)) - TWO_32 * Bit(t0) + Bit(!t)
  {
    Pow2Small();
    TopBitOut(B, Bit(t0), B - 0x8000_0000 * Bit(t0), Bit(t));
  }

  // ----- The instruction sequences

  function RoundCode(hi: RegIndex, lo: RegIndex, d: RegIndex): seq<Half> {
    [ROTCL(lo), DIV1(d, hi)]
  }

  function RoundsCode(hi: RegIndex, lo: RegIndex, d: RegIndex, k: nat): seq<Half> {
    if k == 0 then [] else RoundsCode(hi, lo, d, k - 1) + RoundCode(hi, lo, d)
  }

  lemma {:induction false} RunRounds(decode: Decoder, cpu: Cpu, pc: Word, hi: RegIndex, lo: RegIndex, d: RegIndex, k: nat)
    requires Fits(decode, |cpu.mem.ram|)
    ensures Run(decode, cpu, pc, RoundsCode(hi, lo, d, k)) == Some(Rounds(cpu, hi, lo, d, k))
  {
    hide Exec, Run, Round, RoundCode, Plus, Wrap;
    if k == 0 {
      RunNothing(decode, cpu, pc);
    } else {
      RunRounds(decode, cpu, pc, hi, lo, d, k - 1);
      RunOneMore(decode, cpu, pc, RoundsCode(hi, lo, d, k - 1), hi, lo, d, Rounds(cpu, hi, lo, d, k - 1));
    }
  }

  lemma RunOneMore(decode: Decoder, cpu: Cpu, pc: Word, code: seq<Half>, hi: RegIndex, lo: RegIndex, d: RegIndex, mid: Cpu)
    requires Fits(decode, |cpu.mem.ram|) && mid.mem == cpu.mem
    requires Run(decode, cpu, pc, code) == Some(mid)
    ensures Run(decode, cpu, pc, code + RoundCode(hi, lo, d)) == Some(Round(mid, hi, lo, d))
  {
    hide *;
    RunConcat(decode, cpu, pc, code, RoundCode(hi, lo, d));
    RunRound(decode, mid, Wrap(pc + 2 * |code|), hi, lo, d);
  }

  lemma RunRound(decode: Decoder, cpu: Cpu, pc: Word, hi: RegIndex, lo: RegIndex, d: RegIndex)
    requires Fits(decode, |cpu.mem.ram|)
    ensures Run(decode, cpu, pc, RoundCode(hi, lo, d)) == Some(Round(cpu, hi, lo, d))
  {
    var mid := Rotcl(cpu, lo);
    DecodeRotcl(decode, cpu, pc, lo);
    DecodeDiv1(decode, mid, Plus(pc, 2), d, hi);
    hide Exec, Run, Rotcl, Div1, ROTCL, DIV1, Plus, Wrap;
    assert RoundCode(hi, lo, d) == [ROTCL(lo)] + [DIV1(d, hi)];
    RunOne(decode, cpu, pc, ROTCL(lo), [DIV1(d, hi)]);
    RunLast(decode, mid, Plus(pc, 2), DIV1(d, hi));
  }

  /** DIV0U, 32 rounds, and the ROTCL that brings in the last quotient bit. */
  function UnsignedDivision(hi: RegIndex, lo: RegIndex, d: RegIndex): seq<Half> {
    [DIV0U] + (RoundsCode(hi, lo, d, 32) + [ROTCL(lo)])
  }

  /** For every 64-bit dividend whose quotient fits, the sequence leaves the quotient in the low
      register, and the remainder in the high one up to one correcting addition of the divisor. */
  lemma UnsignedDivisionCorrect(decode: Decoder, cpu: Cpu, pc: Word, hi: RegIndex, lo: RegIndex, d: RegIndex)
    requires Fits(decode, |cpu.mem.ram|) && Distinct(hi, lo, d)
    requires cpu.r[hi] < cpu.r[d]
    ensures var run := Run(decode, cpu, pc, UnsignedDivision(hi, lo, d));
            var X := cpu.r[hi] * TWO_32 + cpu.r[lo];
            && run.Some?
            && var out := run.value;
            && out.r[lo] == X / cpu.r[d]
            && (if out.sr.q then Plus(out.r[hi], cpu.r[d]) else out.r[hi]) == X % cpu.r[d]
            && out == cpu.(r := cpu.r[hi := out.r[hi]][lo := out.r[lo]], sr := out.sr)
  {
    UnsignedRun(decode, cpu, pc, hi, lo, d);
    UnsignedResult(cpu, hi, lo, d);
    hide *;
  }

  lemma UnsignedResult(cpu: Cpu, hi: RegIndex, lo: RegIndex, d: RegIndex)
    requires Distinct(hi, lo, d)
    requires cpu.r[hi] < cpu.r[d]
    ensures var out := Rotcl(Rounds(Div0u(cpu), hi, lo, d, 32), lo);
            var X := cpu.r[hi] * TWO_32 + cpu.r[lo];
            && out.r[lo] == X / cpu.r[d]
            && (if out.sr.q then Plus(out.r[hi], cpu.r[d]) else out.r[hi]) == X % cpu.r[d]
            && out == cpu.(r := cpu.r[hi := out.r[hi]][lo := out.r[lo]], sr := out.sr)
  {
    hide Rounds, Rotcl, DividedBy;
    var start := Div0u(cpu);
    StartsUnsigned(cpu, hi, lo, d);
    AfterRounds(start, hi, lo, d);
    UnsignedFinish(start, Rotcl(Rounds(start, hi, lo, d, 32), lo), hi, lo, d);
  }

  lemma StartsUnsigned(cpu: Cpu, hi: RegIndex, lo: RegIndex, d: RegIndex)
    requires Distinct(hi, lo, d) && cpu.r[hi] < cpu.r[d]
    ensures Ready(Div0u(cpu), hi, lo, d)
  {
  }

  lemma UnsignedFinish(start: Cpu, out: Cpu, hi: RegIndex, lo: RegIndex, d: RegIndex)
    requires Distinct(hi, lo, d) && !start.sr.q && !start.sr.m && !start.sr.t && start.r[d] > 0
    requires DividedBy(start, out, hi, lo, d)
    ensures var X := start.r[hi] * TWO_32 + start.r[lo];
            && out.r[lo] == X / start.r[d]
            && (if out.sr.q then Plus(out.r[hi], start.r[d]) else out.r[hi]) == X % start.r[d]
            && out == start.(r := start.r[hi := out.r[hi]][lo := out.r[lo]], sr := out.sr)
  {
    hide Wrap;
    UnsignedQuotient(start.r[hi] * TWO_32 + start.r[lo], start.r[d], QuotientBits(out, lo), Remainder(out, hi));
    var sum: int := out.r[hi] as int + start.r[d];
    WrapNear(sum);
  }

  lemma UnsignedRun(decode: Decoder, cpu: Cpu, pc: Word, hi: RegIndex, lo: RegIndex, d: RegIndex)
    requires Fits(decode, |cpu.mem.ram|)
    ensures Run(decode, cpu, pc, UnsignedDivision(hi, lo, d)) == Some(Rotcl(Rounds(Div0u(cpu), hi, lo, d, 32), lo))
  {
    var start := Div0u(cpu);
    var mid := Rounds(start, hi, lo, d, 32);
    var code := RoundsCode(hi, lo, d, 32);
    var pc1 := Plus(pc, 2);
    var pc2 := Wrap(pc1 + 2 * |code|);
    DecodeDiv0u(decode, cpu, pc);
    DecodeRotcl(decode, mid, pc2, lo);
    RunRounds(decode, start, pc1, hi, lo, d, 32);
    RunLast(decode, mid, pc2, ROTCL(lo));
    hide Exec, Run, Rotcl, Rounds, RoundsCode, Wrap, Plus, ROTCL;
    RunOne(decode, cpu, pc, DIV0U, code + [ROTCL(lo)]);
    RunConcat(decode, start, pc1, code, [ROTCL(lo)]);
  }

  lemma UnsignedQuotient(X: int, D: int, bits: int, rem: int)
    requires D > 0 && -D <= rem < D && X == D * bits + rem
    ensures X / D == bits - Bit(rem < 0) && X % D == rem + Bit(rem < 0) * D
  {
    if rem < 0 {
      assert D * (bits - 1) == D * bits - D;
      DivModUnique(X, D, bits - 1, rem + D);
    } else {
      DivModUnique(X, D, bits, rem);
    }
  }

  /** The compiler's signed division: sign-extend the dividend into hi, make it one's complement
      when negative, divide, and correct the quotient by the last carry. */
  function SignedDivision(hi: RegIndex, lo: RegIndex, d: RegIndex, z: RegIndex): seq<Half> {
    SignedPrelude(hi, lo, d, z) + (RoundsCode(hi, lo, d, 32) + ([ROTCL(lo)] + [ADDC(z, lo)]))
  }

  function SignedPrelude(hi: RegIndex, lo: RegIndex, d: RegIndex, z: RegIndex): seq<Half> {
    [MOV(lo, z), ROTCL(z), SUBC(hi, hi), MOV0(z), SUBC(z, lo), DIV0S(d, hi)]
  }

  /** The state in which the rounds of a signed division start. */
  function SignedStart(cpu: Cpu, hi: RegIndex, lo: RegIndex, d: RegIndex, z: RegIndex): Cpu {
    var negative := Negative(cpu.r[lo]);
    cpu.(r := cpu.r[z := 0][hi := Minus(0, Bit(negative))][lo := Minus(cpu.r[lo], Bit(negative))],
         sr := cpu.sr.(q := negative, m := Negative(cpu.r[d]), t := negative != Negative(cpu.r[d])))
  }

  lemma SignedRun(decode: Decoder, cpu: Cpu, pc: Word, hi: RegIndex, lo: RegIndex, d: RegIndex, z: RegIndex)
    requires Fits(decode, |cpu.mem.ram|)
    requires Distinct(hi, lo, d) && z !in {hi, lo, d}
    ensures var last := Rotcl(Rounds(SignedStart(cpu, hi, lo, d, z), hi, lo, d, 32), lo);
            Run(decode, cpu, pc, SignedDivision(hi, lo, d, z)) == Some(Addc(last, lo, z))
  {
    var start := SignedStart(cpu, hi, lo, d, z);
    var code := RoundsCode(hi, lo, d, 32);
    var mid := Rounds(start, hi, lo, d, 32);
    var pc1 := Wrap(pc + 2 * |SignedPrelude(hi, lo, d, z)|);
    var pc2 := Wrap(pc1 + 2 * |code|);
    RunPrelude(decode, cpu, pc, hi, lo, d, z);
    RunRounds(decode, start, pc1, hi, lo, d, 32);
    DecodeRotcl(decode, mid, pc2, lo);
    DecodeCarry(decode, Rotcl(mid, lo), Plus(pc2, 2), z, lo);
    hide Exec, Run, Rotcl, Rounds, RoundsCode, Wrap, Plus, ROTCL, ADDC, SignedStart, SignedPrelude, Addc;
    RunConcat(decode, cpu, pc, SignedPrelude(hi, lo, d, z), code + ([ROTCL(lo)] + [ADDC(z, lo)]));
    RunConcat(decode, start, pc1, code, [ROTCL(lo)] + [ADDC(z, lo)]);
    RunOne(decode, mid, pc2, ROTCL(lo), [ADDC(z, lo)]);
    RunLast(decode, Rotcl(mid, lo), Plus(pc2, 2), ADDC(z, lo));
  }

  lemma RunPrelude(decode: Decoder, cpu: Cpu, pc: Word, hi: RegIndex, lo: RegIndex, d: RegIndex, z: RegIndex)
    requires Fits(decode, |cpu.mem.ram|)
    requires Distinct(hi, lo, d) && z !in {hi, lo, d}
    ensures Run(decode, cpu, pc, SignedPrelude(hi, lo, d, z)) == Some(SignedStart(cpu, hi, lo, d, z))
  {
    var c1 := WithReg(cpu, z, cpu.r[lo]);
    var c2 := Rotcl(c1, z);
    var c3 := Subc(c2, hi, hi);
    var c4 := WithReg(c3, z, 0);
    var c5 := Subc(c4, lo, z);
    var c6 := Div0s(c5, hi, d);
    assert c6 == SignedStart(cpu, hi, lo, d, z) by { PreludeEffect(cpu, hi, lo, d, z); }
    var p1 := Plus(pc, 2);
    var p2 := Plus(p1, 2);
    var p3 := Plus(p2, 2);
    var p4 := Plus(p3, 2);
    var p5 := Plus(p4, 2);
    DecodeMov(decode, cpu, pc, lo, z);
    DecodeRotcl(decode, c1, p1, z);
    DecodeCarry(decode, c2, p2, hi, hi);
    DecodeMov0(decode, c3, p3, z);
    DecodeCarry(decode, c4, p4, z, lo);
    DecodeDiv0s(decode, c5, p5, d, hi);
    hide Exec, Run, Rotcl, Subc, Addc, Div0s, WithReg, Plus, MOV, ROTCL, SUBC, MOV0, DIV0S, ADDC, SignedStart;
    var o1, o2, o3, o4, o5, o6 := MOV(lo, z), ROTCL(z), SUBC(hi, hi), MOV0(z), SUBC(z, lo), DIV0S(d, hi);
    assert SignedPrelude(hi, lo, d, z) == [o1] + ([o2] + ([o3] + ([o4] + ([o5] + [o6]))));
    RunOne(decode, cpu, pc, o1, [o2] + ([o3] + ([o4] + ([o5] + [o6]))));
    RunOne(decode, c1, p1, o2, [o3] + ([o4] + ([o5] + [o6])));
    RunOne(decode, c2, p2, o3, [o4] + ([o5] + [o6]));
    RunOne(decode, c3, p3, o4, [o5] + [o6]);
    RunOne(decode, c4, p4, o5, [o6]);
    RunLast(decode, c5, p5, o6);
  }

  lemma PreludeEffect(cpu: Cpu, hi: RegIndex, lo: RegIndex, d: RegIndex, z: RegIndex)
    requires Distinct(hi, lo, d) && z !in {hi, lo, d}
    ensures var c3 := Subc(Rotcl(WithReg(cpu, z, cpu.r[lo]), z), hi, hi);
            Div0s(Subc(WithReg(c3, z, 0), lo, z), hi, d) == SignedStart(cpu, hi, lo, d, z)
  {
    var c2 := Rotcl(WithReg(cpu, z, cpu.r[lo]), z);
    assert c2.sr.t == Negative(cpu.r[lo]);
    var c3 := Subc(c2, hi, hi);
    assert c3.sr.t == c2.sr.t && c3.r[hi] == Minus(0, Bit(c2.sr.t));
    var c5 := Subc(WithReg(c3, z, 0), lo, z);
    assert c5.r[lo] == Minus(cpu.r[lo], Bit(c2.sr.t));
    assert c5.r == cpu.r[z := 0][hi := c5.r[hi]][lo := c5.r[lo]];
  }

  /** For every dividend and every nonzero divisor the sequence leaves the quotient rounded
      toward zero; -2^31 / -1 wraps to -2^31. Dividend, high and scratch registers and the
      status bits are all that changes. */
  lemma SignedDivisionCorrect(decode: Decoder, cpu: Cpu, pc: Word, hi: RegIndex, lo: RegIndex, d: RegIndex, z: RegIndex)
    requires Fits(decode, |cpu.mem.ram|)
    requires Distinct(hi, lo, d) && z !in {hi, lo, d}
    requires cpu.r[d] != 0
    ensures var run := Run(decode, cpu, pc, SignedDivision(hi, lo, d, z));
            && run.Some?
            && var out := run.value;
            && out.r[lo] == Wrap(Quotient(Signed(cpu.r[lo]), Signed(cpu.r[d])))
            && out == cpu.(r := cpu.r[z := 0][hi := out.r[hi]][lo := out.r[lo]], sr := out.sr)
  {
    SignedRun(decode, cpu, pc, hi, lo, d, z);
    SignedResult(cpu, hi, lo, d, z);
    hide *;
  }

  lemma SignedResult(cpu: Cpu, hi: RegIndex, lo: RegIndex, d: RegIndex, z: RegIndex)
    requires Distinct(hi, lo, d) && z !in {hi, lo, d}
    requires cpu.r[d] != 0
    ensures var out := Addc(Rotcl(Rounds(SignedStart(cpu, hi, lo, d, z), hi, lo, d, 32), lo), lo, z);
            && out.r[lo] == Wrap(Quotient(Signed(cpu.r[lo]), Signed(cpu.r[d])))
            && out == cpu.(r := cpu.r[z := 0][hi := out.r[hi]][lo := out.r[lo]], sr := out.sr)
  {
    hide Rounds, Rotcl, Wrap, SignedStart, Quotient, Ready, Divisor, Signed, Negative;
    var start := SignedStart(cpu, hi, lo, d, z);
    var X, D := Signed(cpu.r[lo]), Signed(cpu.r[d]);
    SignedReady(cpu, hi, lo, d, z);
    AfterRounds(start, hi, lo, d);
    var last := Rotcl(Rounds(start, hi, lo, d, 32), lo);
    var rem := Remainder(last, hi);
    SignedQuotient(X, D, QuotientBits(last, lo), rem);
    var out := Addc(last, lo, z);
    assert (rem < 0) == last.sr.q;
    SameResidue(out.r[lo], Quotient(X, D), last.r[lo], last.sr.t);
  }

  lemma SignedReady(cpu: Cpu, hi: RegIndex, lo: RegIndex, d: RegIndex, z: RegIndex)
    requires Distinct(hi, lo, d) && z !in {hi, lo, d}
    requires cpu.r[d] != 0
    ensures var start := SignedStart(cpu, hi, lo, d, z);
            var X, D := Signed(cpu.r[lo]), Signed(cpu.r[d]);
            && Ready(start, hi, lo, d) && Divisor(start, d) == D
            && Remainder(start, hi) * TWO_32 + start.r[lo] == X - Bit(X < 0)
            && start.sr.t == ((X < 0) != (D < 0)) && start.sr.m == (D < 0)
            && start.r[z] == 0
            && start == cpu.(r := cpu.r[z := 0][hi := start.r[hi]][lo := start.r[lo]], sr := start.sr)
  {
  }

  lemma SameResidue(result: Word, quotient: int, low: Word, t: bool)
    requires result == Wrap(low + Bit(t)) && quotient == low - TWO_32 * Bit(t) + Bit(t)
    ensures result == Wrap(quotient)
  {
  }

  /** The one's complement trick rounds toward zero. */
  lemma SignedQuotient(X: int, D: int, bits: int, rem: int)
    requires D != 0 && InRange(rem, D) && X - Bit(X < 0) == D * bits + rem
    ensures Quotient(X, D) == bits - Bit((rem < 0) != (D < 0)) + Bit((X < 0) != (D < 0))
  {
    var a := Abs(D);
    if D < 0 {
      assert D * bits == a * -bits;
    }
    var q := (if D < 0 then -bits else bits) - Bit(rem < 0);
    UnsignedQuotient(X - Bit(X < 0), a, if D < 0 then -bits else bits, rem);
    if X < 0 {
      NegatedQuotient(X, a, q);
    }
  }

  /** The quotient of -X from the floor of (X - 1) / a. */
  lemma NegatedQuotient(X: int, a: int, q: int)
    requires a > 0 && q == (X - 1) / a
    ensures -X / a == -q - 1
  {
    var r := (X - 1) % a;
    assert X - 1 == a * q + r;
    assert a * (-q - 1) == -(a * q) - a;
    DivModUnique(-X, a, -q - 1, a - r - 1);
  }
}

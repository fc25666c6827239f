/** The interpreter's `exec_one`: registers, status bits and RAM updated in place, with the
    carry, borrow and overflow tests the C++ uses. Every method is proved to take the state
    where `Sh4Isa` says the instruction takes it. */
module Sh4Core {
  import opened Words
  import opened Memory
  import opened Sh4Isa

  class Core {
    const decode: Decoder
    const r: array<Word>
    const ram: array<Byte>
    var dirty: set<nat>
    var sr: Sr
    var pr: Word
    var mach: Word
    var macl: Word

    ghost predicate Valid()
      reads this, r, ram
    {
      r.Length == 16 && Fits(decode, ram.Length)
    }

    ghost function State(): Cpu
      requires Valid()
      reads this, r, ram
    {
      Cpu(r[..], sr, pr, mach, macl, Mem(ram[..], dirty))
    }

    constructor (decode: Decoder, ramSize: nat)
      requires Fits(decode, ramSize)
      ensures Valid() && fresh(r) && fresh(ram)
      ensures this.decode == decode && ram.Length == ramSize
      ensures State() == Cpu(seq(16, _ => 0), Sr(false, false, false, false, 0), 0, 0, 0,
                             Mem(seq(ramSize, _ => 0), {}))
    {
      this.decode := decode;
      r := new Word[16](_ => 0);
      ram := new Byte[ramSize](_ => 0);
      dirty := {};
      sr := Sr(false, false, false, false, 0);
      pr, mach, macl := 0, 0, 0;
      new;
      assert r[..] == seq(16, _ => 0);
      assert ram[..] == seq(ramSize, _ => 0);
    }

    // ----- Register file and bus

    method SetR(n: RegIndex, v: Word)
      requires Valid()
      modifies r
      ensures r[..] == old(r[..])[n := v]
    {
      r[n] := v;
    }

    method Rd32(a: Word) returns (v: Word)
      requires Valid()
      ensures v == Read32(decode, State().mem, a)
    {
      var p := decode(a);
      v := ram[p] as int + 0x100 * (ram[p + 1] as int) + 0x1_0000 * (ram[p + 2] as int) + 0x100_0000 * (ram[p + 3] as int);
    }

    method Rd16(a: Word) returns (v: Half)
      requires Valid()
      ensures v == Read16(decode, State().mem, a)
    {
      var p := decode(a);
      v := ram[p] as int + 0x100 * (ram[p + 1] as int);
    }

    method Wr32(a: Word, v: Word)
      requires Valid()
      modifies this`dirty, ram
      ensures Mem(ram[..], dirty) == Write32(decode, old(State().mem), a, v)
    {
      var p := decode(a);
      ram[p] := v % 0x100;
      ram[p + 1] := v / 0x100 % 0x100;
      ram[p + 2] := v / 0x1_0000 % 0x100;
      ram[p + 3] := v / 0x100_0000;
      dirty := dirty + {p / PAGE_SIZE, (p + 3) / PAGE_SIZE};
      assert ram[..] == StoreWord(old(ram[..]), p, v);
    }

    method SetT(t: bool)
      modifies this`sr
      ensures sr == old(sr).(t := t)
    {
      sr := sr.(t := t);
    }

    // ----- Multi-word arithmetic and division

    method ExecAddc(n: RegIndex, m: RegIndex)
      requires Valid()
      modifies this`sr, r
      ensures State() == Addc(old(State()), n, m)
    {
      var oldN := r[n];
      var tmp := Plus(oldN, r[m]);
      var result := Plus(tmp, Bit(sr.t));
      var c1, c2 := tmp < oldN, result < tmp;
      CarryOut(oldN, r[m], sr.t);
      hide Wrap, Plus;
      SetR(n, result);
      SetT(c1 || c2);
    }

    method ExecSubc(n: RegIndex, m: RegIndex)
      requires Valid()
      modifies this`sr, r
      ensures State() == Subc(old(State()), n, m)
    {
      var oldN := r[n];
      var tmp := Minus(oldN, r[m]);
      var result := Minus(tmp, Bit(sr.t));
      var b1, b2 := oldN < tmp, tmp < result;
      BorrowOut(oldN, r[m], sr.t);
      hide Wrap, Minus;
      SetR(n, result);
      SetT(b1 || b2);
    }

    method ExecNegc(n: RegIndex, m: RegIndex)
      requires Valid()
      modifies this`sr, r
      ensures State() == Negc(old(State()), n, m)
    {
      var tmp := Minus(0, r[m]);
      var result := Minus(tmp, Bit(sr.t));
      BorrowOut(0, r[m], sr.t);
      hide Wrap, Minus;
      SetR(n, result);
      SetT(0 < tmp || tmp < result);
    }

    method ExecRotcl(n: RegIndex)
      requires Valid()
      modifies this`sr, r
      ensures State() == Rotcl(old(State()), n)
    {
      var old_ := r[n];
      var t := Bit(sr.t);
      ShiftedWord(old_, t);
      SetR(n, Plus(Times(2, old_), t));
      SetT(old_ / 0x8000_0000 != 0);
    }

    method ExecDiv1(n: RegIndex, m: RegIndex)
      requires Valid()
      modifies this`sr, r
      ensures State() == Div1(old(State()), n, m)
    {
      hide DivideStep, Plus, Times;
      var mm := sr.m;
      var shifted := Plus(Times(2, r[n]), Bit(sr.t));
      var nn, q := ShiftAndMove(r[n], sr.t, sr.q, mm, if n == m then shifted else r[m]);
      SetR(n, nn);
      sr := sr.(q := q, t := q == mm);
    }

    method ExecDiv0s(n: RegIndex, m: RegIndex)
      requires Valid()
      modifies this`sr
      ensures State() == Div0s(old(State()), n, m)
    {
      var q := r[n] / 0x8000_0000 % 2;
      var mm := r[m] / 0x8000_0000 % 2;
      sr := sr.(m := mm == 1, q := q == 1, t := mm != q);
    }

    // ----- Multiply-accumulate

    method ExecMacL(n: RegIndex, m: RegIndex)
      requires Valid()
      modifies this`mach, this`macl, r
      ensures State() == MacL(decode, old(State()), n, m)
    {
      var vn := Rd32(r[n]);
      SetR(n, Plus(r[n], 4));
      var vm := Rd32(r[m]);
      SetR(m, Plus(r[m], 4));
      var product := Signed(vn) * Signed(vm);
      var bits := (mach * TWO_32 + macl + product % TWO_64) % TWO_64;
      var mac: int := if bits < TWO_64 / 2 then bits else bits - TWO_64;
      MacBits(mach, macl, product);
      if sr.s {
        if mac > MAX_48 { mac := MAX_48; } else if mac < MIN_48 { mac := MIN_48; }
      }
      SplitBits(mac);
      mach, macl := mac % TWO_64 / TWO_32, mac % TWO_64 % TWO_32;
    }

    method ExecMacW(n: RegIndex, m: RegIndex)
      requires Valid()
      modifies this`mach, this`macl, r
      ensures State() == MacW(decode, old(State()), n, m)
    {
      var vn := Rd16(r[n]);
      SetR(n, Plus(r[n], 2));
      var vm := Rd16(r[m]);
      SetR(m, Plus(r[m], 2));
      var product := SignedHalf(vn) * SignedHalf(vm);
      HalfProduct(vn, vm);
      mach, macl := AccumulateW(mach, macl, product, sr.s);
    }

    // ----- The decoder

    method ExecOne(pc: Word, op: Half, slot: bool) returns (signal: Signal)
      requires Valid()
      modifies this, r, ram
      ensures Step(State(), signal) == Exec(decode, old(State()), pc, op, slot)
    {
      var n, m, low := FieldN(op), FieldM(op), op % 0x10;
      signal := Next;
      var group := op / 0x1000;
      if group == 0x0 {
        signal := ExecGroup0(pc, op, slot);
      } else if group == 0x1 {
        Wr32(Plus(r[n], low * 4), r[m]);
      } else if group == 0x2 {
        signal := ExecGroup2(op);
      } else if group == 0x3 {
        signal := ExecGroup3(op);
      } else if group == 0x4 {
        signal := ExecGroup4(pc, op, slot);
      } else if group == 0x5 {
        var v := Rd32(Plus(r[m], low * 4));
        SetR(n, v);
      } else if group == 0x6 {
        signal := ExecGroup6(op);
      } else if group == 0x7 {
        SetR(n, Plus(r[n], Sext8(op)));
      } else if group == 0x8 {
        signal := ExecGroup8(pc, op, slot);
      } else if group == 0x9 {
        var v := Rd16(Wrap(pc + 4 + op % 0x100 * 2));
        SetR(n, Sext16(v));
      } else if group == 0xA {
        signal := if slot then Illegal else Slot(Jump, Wrap(pc + 4 + Sext12(op) * 2), 0, true);
      } else if group == 0xB {
        if slot { return Illegal; }
        pr := Plus(pc, 4);
        signal := Slot(Call, Wrap(pc + 4 + Sext12(op) * 2), pr, true);
      } else if group == 0xC {
        signal := ExecGroupC(pc, op, slot);
      } else if group == 0xD {
        var v := Rd32(LiteralAddress(pc, op));
        SetR(n, v);
      } else if group == 0xE {
        SetR(n, Sext8(op));
      } else {
        signal := Unmodelled;
      }
    }

    method ExecGroup0(pc: Word, op: Half, slot: bool) returns (signal: Signal)
      requires Valid()
      modifies this, r, ram
      ensures Step(State(), signal) == Exec0(decode, old(State()), pc, op, slot)
    {
      var n, m, low8 := FieldN(op), FieldM(op), op % 0x100;
      signal := Next;
      if low8 == 0x03 || low8 == 0x23 {
        if slot { return Illegal; }
        if low8 == 0x03 {
          pr := Plus(pc, 4);
          signal := Slot(Call, Wrap(pc + 4 + r[n]), pr, true);
        } else {
          signal := Slot(Jump, Wrap(pc + 4 + r[n]), 0, true);
        }
      } else if op % 0x10 == 0x6 {
        Wr32(Plus(r[n], r[0]), r[m]);
      } else if op % 0x10 == 0x7 {
        macl := Times(r[n], r[m]);
      } else if op == 0x0008 {
        SetT(false);
      } else if op == 0x0018 {
        SetT(true);
      } else if op == 0x0028 {
        mach, macl := 0, 0;
      } else if op == 0x0048 {
        sr := sr.(s := false);
      } else if op == 0x0058 {
        sr := sr.(s := true);
      } else if op == 0x0009 {
      } else if op == 0x0019 {
        sr := sr.(m := false, q := false, t := false);
      } else if low8 == 0x29 {
        SetR(n, Bit(sr.t));
      } else if low8 == 0x0A {
        SetR(n, mach);
      } else if low8 == 0x1A {
        SetR(n, macl);
      } else if low8 == 0x2A {
        SetR(n, pr);
      } else if op == 0x000B {
        signal := if slot then Illegal else Slot(Return, pr, 0, true);
      } else if op == 0x001B {
        signal := if slot then Illegal else Sleep;
      } else if op % 0x10 == 0xE {
        var v := Rd32(Plus(r[m], r[0]));
        SetR(n, v);
      } else if op % 0x10 == 0xF {
        ExecMacL(n, m);
      } else {
        signal := Unmodelled;
      }
    }

    method ExecGroup2(op: Half) returns (signal: Signal)
      requires Valid()
      modifies this, r, ram
      ensures Step(State(), signal) == Exec2(decode, old(State()), op)
    {
      var n, m, low := FieldN(op), FieldM(op), op % 0x10;
      signal := Next;
      if low == 0x2 {
        Wr32(r[n], r[m]);
      } else if low == 0x6 {
        SetR(n, Minus(r[n], 4));
        Wr32(r[n], r[m]);
      } else if low == 0x7 {
        ExecDiv0s(n, m);
      } else if low == 0x8 {
        SetT(And(r[n], r[m]) == 0);
      } else if low == 0x9 {
        SetR(n, And(r[n], r[m]));
      } else {
        signal := Unmodelled;
      }
    }

    method ExecGroup3(op: Half) returns (signal: Signal)
      requires Valid()
      modifies this, r
      ensures Step(State(), signal) == Exec3(old(State()), op)
    {
      var n, m, low := FieldN(op), FieldM(op), op % 0x10;
      signal := Next;
      if low == 0x0 {
        SetT(r[n] == r[m]);
      } else if low == 0x2 {
        SetT(r[n] >= r[m]);
      } else if low == 0x3 {
        SetT(Signed(r[n]) >= Signed(r[m]));
      } else if low == 0x4 {
        ExecDiv1(n, m);
      } else if low == 0x6 {
        SetT(r[n] > r[m]);
      } else if low == 0x7 {
        SetT(Signed(r[n]) > Signed(r[m]));
      } else if low == 0x8 {
        SetR(n, Minus(r[n], r[m]));
      } else if low == 0xA {
        ExecSubc(n, m);
      } else if low == 0xC {
        SetR(n, Plus(r[n], r[m]));
      } else if low == 0xE {
        ExecAddc(n, m);
      } else {
        signal := Unmodelled;
      }
    }

    method ExecGroup4(pc: Word, op: Half, slot: bool) returns (signal: Signal)
      requires Valid()
      modifies this, r, ram
      ensures Step(State(), signal) == Exec4(decode, old(State()), pc, op, slot)
    {
      var n, m, low8 := FieldN(op), FieldM(op), op % 0x100;
      signal := Next;
      if low8 == 0x00 || low8 == 0x20 {
        var old_ := r[n];
        SetT(old_ / 0x8000_0000 != 0);
        SetR(n, Times(2, old_));
      } else if low8 == 0x01 {
        var old_ := r[n];
        SetT(old_ % 2 == 1);
        SetR(n, old_ / 2);
      } else if low8 == 0x24 {
        ExecRotcl(n);
      } else if low8 == 0x25 {
        var old_ := r[n];
        var t := Bit(sr.t);
        SetR(n, old_ / 2 + 0x8000_0000 * t);
        SetT(old_ % 2 == 1);
      } else if low8 == 0x08 {
        SetR(n, Times(4, r[n]));
      } else if low8 == 0x09 {
        SetR(n, r[n] / 4);
      } else if low8 == 0x10 {
        SetR(n, Minus(r[n], 1));
        SetT(r[n] == 0);
      } else if low8 == 0x11 {
        SetT(Signed(r[n]) >= 0);
      } else if low8 == 0x15 {
        SetT(Signed(r[n]) > 0);
      } else if low8 == 0x22 {
        SetR(n, Minus(r[n], 4));
        Wr32(r[n], pr);
      } else if low8 == 0x26 {
        pr := Rd32(r[n]);
        SetR(n, Plus(r[n], 4));
      } else if low8 == 0x0B || low8 == 0x2B {
        if slot { return Illegal; }
        if low8 == 0x0B {
          pr := Plus(pc, 4);
          signal := Slot(Call, r[n], pr, true);
        } else {
          signal := Slot(Jump, r[n], 0, true);
        }
      } else if op % 0x10 == 0xF {
        ExecMacW(n, m);
      } else {
        signal := Unmodelled;
      }
    }

    method ExecGroup6(op: Half) returns (signal: Signal)
      requires Valid()
      modifies this, r
      ensures Step(State(), signal) == Exec6(decode, old(State()), op)
    {
      var n, m, low := FieldN(op), FieldM(op), op % 0x10;
      signal := Next;
      if low == 0x2 {
        var v := Rd32(r[m]);
        SetR(n, v);
      } else if low == 0x3 {
        SetR(n, r[m]);
      } else if low == 0x6 {
        var v := Rd32(r[m]);
        if n != m {
          SetR(m, Plus(r[m], 4));
        }
        SetR(n, v);
      } else if low == 0xA {
        ExecNegc(n, m);
      } else if low == 0xB {
        SetR(n, Minus(0, r[m]));
      } else {
        signal := Unmodelled;
      }
    }

    method ExecGroup8(pc: Word, op: Half, slot: bool) returns (signal: Signal)
      requires Valid()
      modifies this`sr
      ensures Step(State(), signal) == Exec8(old(State()), pc, op, slot)
    {
      var sub := FieldN(op);
      var target := Wrap(pc + 4 + Sext8(op) * 2);
      signal := Next;
      if sub == 0x8 {
        SetT(r[0] == Sext8(op));
      } else if sub == 0x9 || sub == 0xB {
        signal := if slot then Illegal else Branch(target, if sub == 0x9 then sr.t else !sr.t);
      } else if sub == 0xD || sub == 0xF {
        signal := if slot then Illegal else Slot(CondJump, target, 0, if sub == 0xD then sr.t else !sr.t);
      } else {
        signal := Unmodelled;
      }
    }

    method ExecGroupC(pc: Word, op: Half, slot: bool) returns (signal: Signal)
      requires Valid()
      modifies r
      ensures Step(State(), signal) == ExecC(old(State()), pc, op, slot)
    {
      var sub := FieldN(op);
      signal := Next;
      if sub == 0x3 {
        signal := if slot then Illegal else Trap(op % 0x100);
      } else if sub == 0x7 {
        SetR(0, LiteralAddress(pc, op));
      } else {
        signal := Unmodelled;
      }
    }
  }

  /** The core of DIV1: shift, add or subtract, and the quotient bit from the carry test. */
  method ShiftAndMove(rn: Word, t: bool, oldQ: bool, mm: bool, d: Word) returns (nn: Word, q: bool)
    ensures (nn, q) == DivideStep(rn, t, oldQ, mm, d)
  {
    q := Negative(rn);
    var top := q;
    nn := Plus(Times(2, rn), Bit(t));
    var tmp0, tmp1 := nn, false;
    ghost var subtract := oldQ == mm;
    ShiftedWord(rn, Bit(t));
    if !oldQ {
      if !mm {
        nn := Minus(nn, d); tmp1 := nn > tmp0; q := if !q then tmp1 else !tmp1;
      } else {
        nn := Plus(nn, d); tmp1 := nn < tmp0; q := if !q then !tmp1 else tmp1;
      }
    } else {
      if !mm {
        nn := Plus(nn, d); tmp1 := nn < tmp0; q := if !q then tmp1 else !tmp1;
      } else {
        nn := Minus(nn, d); tmp1 := nn > tmp0; q := if !q then !tmp1 else tmp1;
      }
    }
    DivideStepBits(tmp0, top, d, mm, subtract);
  }

  lemma ShiftedWord(w: Word, low: int)
    requires 0 <= low <= 1
    ensures 2 * w + low == Plus(Times(2, w), low) + TWO_32 * Bit(Negative(w))
    ensures Wrap(2 * w + low) == Plus(Times(2, w), low)
  {
  }

  /** Moving the 33-bit number top:n by the signed divisor flips its top bit exactly when
      the 32-bit operation carries or borrows, and once more when the divisor is negative. */
  lemma DivideStepBits(n: Word, top: bool, d: Word, negative: bool, subtract: bool)
    ensures var shifted, signedD := n + TWO_32 * Bit(top), d - TWO_32 * Bit(negative);
            var w := (if subtract then shifted - signedD else shifted + signedD) % (2 * TWO_32);
            var moved := if subtract then Minus(n, d) else Plus(n, d);
            var carried := if subtract then moved > n else moved < n;
            moved == Wrap(w) && (w >= TWO_32) == ((top != carried) != negative)
  {
    var moved := if subtract then n - d else n + d;
    WrapNear(moved);
    var k := Bit(top) + (if subtract then Bit(negative) else -Bit(negative));
    assert -1 <= k <= 2;
    var low: int := Wrap(moved);
    var turns := if moved < 0 then k - 1 else if moved < TWO_32 then k else k + 1;
    assert moved + TWO_32 * k == low + TWO_32 * turns;
    DivModUnique(low + TWO_32 * turns, 2 * TWO_32, turns / 2, low + TWO_32 * (turns % 2));
    DivModUnique(low + TWO_32 * (turns % 2), TWO_32, turns % 2, low);
  }

  lemma HalfProduct(a: Half, b: Half)
    ensures -0x4000_0000 <= SignedHalf(a) * SignedHalf(b) <= 0x4000_0000
  {
    var x, y := SignedHalf(a), SignedHalf(b);
    MulBound(if x < 0 then -x else x, if y < 0 then -y else y, 0x8000);
  }

  lemma MulBound(x: nat, y: nat, bound: nat)
    requires x <= bound && y <= bound
    ensures x * y <= bound * bound
  {
    MulMonotone(x, y, bound);
    MulMonotone(bound, x, bound);
  }

  /** The accumulation of MAC.W: 32-bit saturation with a sticky overflow bit, or 64-bit wrap. */
  method AccumulateW(mach: Word, macl: Word, product: int, saturate: bool) returns (mach': Word, macl': Word)
    requires -0x4000_0000 <= product <= 0x4000_0000
    ensures saturate ==>
              var sum := Signed(macl) + product;
              var kept := Clamp(sum, -0x8000_0000, 0x7FFF_FFFF);
              && macl' == Wrap(kept)
              && mach' == if kept != sum && mach % 2 == 0 then mach + 1 else mach
    ensures !saturate ==>
              var sum := WrapSigned64(Signed(mach) * TWO_32 + macl + product);
              mach' == Wrap(sum / TWO_32) && macl' == Wrap(sum)
  {
    if saturate {
      mach' := mach;
      var acc := Signed(macl) + product;
      if acc > 0x7FFF_FFFF {
        acc := 0x7FFF_FFFF;
        mach' := if mach % 2 == 0 then mach + 1 else mach;
      } else if acc < -0x8000_0000 {
        acc := -0x8000_0000;
        mach' := if mach % 2 == 0 then mach + 1 else mach;
      }
      macl' := Wrap(acc);
    } else {
      var bits := (mach * TWO_32 + macl + product % TWO_64) % TWO_64;
      MacBits(mach, macl, product);
      SplitBits(if bits < TWO_64 / 2 then bits else bits - TWO_64);
      mach', macl' := bits / TWO_32, bits % TWO_32;
    }
  }

  /** A sum of two words and a carry wraps in the first or in the second addition. */
  lemma CarryOut(a: Word, b: Word, t: bool)
    ensures var tmp, sum := Plus(a, b), a + b + Bit(t);
            var result := Plus(tmp, Bit(t));
            result == Wrap(sum) && (tmp < a || result < tmp) == (sum >= TWO_32)
  {
    var sum: int := a as int + b;
    WrapNear(sum);
    WrapNear(Plus(a, b) as int + Bit(t));
    WrapTwice(sum, Bit(t));
  }

  lemma BorrowOut(a: Word, b: Word, t: bool)
    ensures var tmp, diff := Minus(a, b), a - b - Bit(t);
            var result := Minus(tmp, Bit(t));
            result == Wrap(diff) && (a < tmp || tmp < result) == (diff < 0)
  {
    var diff: int := a as int - b;
    WrapNear(diff);
    WrapNear(Minus(a, b) as int - Bit(t));
    WrapTwice(diff, -Bit(t));
  }

  lemma WrapTwice(a: int, b: int)
    ensures Wrap(Wrap(a) + b) == Wrap(a + b)
  {
  }

  /** Adding on unsigned 64-bit words and reading the result as signed is addition modulo 2^64. */
  lemma MacBits(mach: Word, macl: Word, product: int)
    ensures var bits := (mach * TWO_32 + macl + product % TWO_64) % TWO_64;
            WrapSigned64(Signed(mach) * TWO_32 + macl + product) == if bits < TWO_64 / 2 then bits else bits - TWO_64
  {
  }

  /** The high and low halves of a 64-bit value are its quotient and remainder by 2^32, wrapped. */
  lemma SplitBits(v: int)
    ensures v % TWO_64 / TWO_32 == Wrap(v / TWO_32) && v % TWO_64 % TWO_32 == Wrap(v)
  {
  }
}

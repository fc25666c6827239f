/** Runs of MAC.L and MAC.W compute dot products: modulo 2^64, or saturating step by step. */
module Sh4Mac {
  import opened Options
  import opened Words
  import opened Memory
  import opened Sh4Isa
  import opened Sh4Program

  // ----- What a run should compute

  /** The first k products of the two arrays of signed words at a and b. */
  function ProductsL(decode: Decoder, mem: Mem, a: Word, b: Word, k: nat): (ps: seq<int>)
    requires Fits(decode, |mem.ram|)
    ensures |ps| == k
  {
    if k == 0 then []
    else ProductsL(decode, mem, a, b, k - 1)
         + [Signed(Read32(decode, mem, Plus(a, 4 * (k - 1)))) * Signed(Read32(decode, mem, Plus(b, 4 * (k - 1))))]
  }

  /** The same for arrays of signed half-words. */
  function ProductsW(decode: Decoder, mem: Mem, a: Word, b: Word, k: nat): (ps: seq<int>)
    requires Fits(decode, |mem.ram|)
    ensures |ps| == k
  {
    if k == 0 then []
    else ProductsW(decode, mem, a, b, k - 1)
         + [SignedHalf(Read16(decode, mem, Plus(a, 2 * (k - 1)))) * SignedHalf(Read16(decode, mem, Plus(b, 2 * (k - 1))))]
  }

  function Sum(ps: seq<int>): int {
    if ps == [] then 0 else Sum(ps[..|ps| - 1]) + ps[|ps| - 1]
  }

  /** Adding one product at a time, clamping after each. */
  function Saturate(start: int, ps: seq<int>, lo: int, hi: int): int {
    if ps == [] then start else Clamp(Saturate(start, ps[..|ps| - 1], lo, hi) + ps[|ps| - 1], lo, hi)
  }

  /** Some addition of the saturating run leaves the interval. */
  ghost predicate Overflows(start: int, ps: seq<int>, lo: int, hi: int) {
    exists i :: 0 <= i < |ps| && !(lo <= Saturate(start, ps[..i], lo, hi) + ps[i] <= hi)
  }

  lemma {:induction false} SaturateStaysInRange(start: int, ps: seq<int>, lo: int, hi: int)
    requires lo <= start <= hi
    ensures lo <= Saturate(start, ps, lo, hi) <= hi
    decreases |ps|
  {
    if ps != [] {
      SaturateStaysInRange(start, ps[..|ps| - 1], lo, hi);
    }
  }

  /** A saturating run that never overflows is the exact sum. */
  lemma {:induction false} SaturateExact(start: int, ps: seq<int>, lo: int, hi: int)
    requires !Overflows(start, ps, lo, hi)
    ensures Saturate(start, ps, lo, hi) == start + Sum(ps)
    decreases |ps|
  {
    if ps != [] {
      var front := ps[..|ps| - 1];
      forall i | 0 <= i < |front|
        ensures lo <= Saturate(start, front[..i], lo, hi) + front[i] <= hi
      {
        assert front[..i] == ps[..i];
      }
      SaturateExact(start, front, lo, hi);
      assert ps[..|front|] == front;
    }
  }

  lemma OverflowsAppend(start: int, ps: seq<int>, p: int, lo: int, hi: int)
    ensures Overflows(start, ps + [p], lo, hi)
            <==> Overflows(start, ps, lo, hi) || !(lo <= Saturate(start, ps, lo, hi) + p <= hi)
  {
    var all := ps + [p];
    assert all[..|ps|] == ps && all[|ps|] == p;
    forall i | 0 <= i < |ps|
      ensures all[..i] == ps[..i] && all[i] == ps[i]
    {
    }
    if Overflows(start, ps, lo, hi) {
      var i :| 0 <= i < |ps| && !(lo <= Saturate(start, ps[..i], lo, hi) + ps[i] <= hi);
      assert !(lo <= Saturate(start, all[..i], lo, hi) + all[i] <= hi);
    }
  }

  lemma Appended(start: int, ps: seq<int>, p: int, lo: int, hi: int)
    ensures Sum(ps + [p]) == Sum(ps) + p
    ensures Saturate(start, ps + [p], lo, hi) == Clamp(Saturate(start, ps, lo, hi) + p, lo, hi)
  {
    assert (ps + [p])[..|ps|] == ps;
  }

  // ----- Single steps

  lemma MacRoundTrip(cpu: Cpu, v: int)
    requires -TWO_64 / 2 <= v < TWO_64 / 2
    ensures Mac(WithMac(cpu, v)) == v
  {
    var q, low := v / TWO_32, v % TWO_32;
    assert v == TWO_32 * q + low;
    assert -0x8000_0000 <= q < 0x8000_0000;
  }

  lemma SignedProductBound(a: Word, b: Word)
    ensures -0x4000_0000_0000_0000 <= Signed(a) * Signed(b) <= 0x4000_0000_0000_0000
  {
    var x, y := Signed(a), Signed(b);
    var ax, ay := if x < 0 then -x else x, if y < 0 then -y else y;
    MulMonotone(ax, ay, 0x8000_0000);
    MulMonotone(0x8000_0000, ax, 0x8000_0000);
    assert x * y == ax * ay || x * y == -(ax * ay);
  }

  /** The product one MAC.L adds, for distinct pointer registers. */
  function ProductL(decode: Decoder, cpu: Cpu, n: RegIndex, m: RegIndex): int
    requires Fits(decode, |cpu.mem.ram|)
  {
    Signed(Read32(decode, cpu.mem, cpu.r[n])) * Signed(Read32(decode, cpu.mem, cpu.r[m]))
  }

  /** With S set, MAC.L adds and clamps to 48 bits exactly when the unclamped sum fits in 64 bits;
      beyond that the 64-bit addition wraps first and the clamp takes the wrong end. */
  lemma SaturationExact(decode: Decoder, cpu: Cpu, n: RegIndex, m: RegIndex)
    requires Fits(decode, |cpu.mem.ram|) && n != m && cpu.sr.s
    ensures var sum := Mac(cpu) + ProductL(decode, cpu, n, m);
            Mac(MacL(decode, cpu, n, m)) == Clamp(sum, MIN_48, MAX_48)
            <==> -TWO_64 / 2 <= sum < TWO_64 / 2
  {
    var vn, vm := Read32(decode, cpu.mem, cpu.r[n]), Read32(decode, cpu.mem, cpu.r[m]);
    SignedProductBound(vn, vm);
    hide Read32;
    var p := Signed(vn) * Signed(vm);
    var sum := Mac(cpu) + p;
    WrapSigned(sum);
    MacRoundTrip(MacL(decode, cpu, n, m), Clamp(WrapSigned64(sum), MIN_48, MAX_48));
    hide Signed, WrapSigned64;
  }

  /** From the largest 64-bit accumulator, adding 1 in saturating mode clamps to the lower end. */
  lemma ClampAtTheWrongEnd() returns (decode: Decoder, cpu: Cpu)
    ensures Fits(decode, |cpu.mem.ram|) && cpu.sr.s && Mac(cpu) == TWO_64 / 2 - 1 && ProductL(decode, cpu, 0, 1) == 1
    ensures Mac(MacL(decode, cpu, 0, 1)) == MIN_48
  {
    decode := a => 0;
    cpu := Cpu(seq(16, _ => 0), Sr(false, true, false, false, 0), 0, 0x7FFF_FFFF, 0xFFFF_FFFF, Mem([1, 0, 0, 0], {}));
    assert Read32(decode, cpu.mem, 0) == 1;
    MacRoundTrip(MacL(decode, cpu, 0, 1), MIN_48);
  }

  lemma WrapSigned(v: int)
    requires -TWO_64 <= v < TWO_64
    ensures WrapSigned64(v) == if v < -TWO_64 / 2 then v + TWO_64 else if v < TWO_64 / 2 then v else v - TWO_64
  {
    DivModUnique(v, TWO_64, if v < 0 then -1 else 0, if v < 0 then v + TWO_64 else v);
  }

  /** One MAC.L on distinct registers, as pointer moves and a new accumulator. */
  lemma MacLStep(decode: Decoder, cpu: Cpu, n: RegIndex, m: RegIndex)
    requires Fits(decode, |cpu.mem.ram|) && n != m
    ensures var out := MacL(decode, cpu, n, m);
            var sum := WrapSigned64(Mac(cpu) + ProductL(decode, cpu, n, m));
            && Mac(out) == (if cpu.sr.s then Clamp(sum, MIN_48, MAX_48) else sum)
            && out == cpu.(r := cpu.r[n := Plus(cpu.r[n], 4)][m := Plus(cpu.r[m], 4)], mach := out.mach, macl := out.macl)
  {
    hide Read32, Signed, WrapSigned64, Plus, Wrap;
    var sum := WrapSigned64(Mac(cpu) + ProductL(decode, cpu, n, m));
    WrapSignedRange(Mac(cpu) + ProductL(decode, cpu, n, m));
    MacRoundTrip(MacL(decode, cpu, n, m), if cpu.sr.s then Clamp(sum, MIN_48, MAX_48) else sum);
  }

  lemma WrapSignedRange(v: int)
    ensures -TWO_64 / 2 <= WrapSigned64(v) < TWO_64 / 2
  {
  }

  lemma WrapSignedTwice(v: int, p: int)
    ensures WrapSigned64(WrapSigned64(v) + p) == WrapSigned64(v + p)
  {
    var k := if v % TWO_64 < TWO_64 / 2 then v / TWO_64 else v / TWO_64 + 1;
    assert v == TWO_64 * k + WrapSigned64(v);
    var w := (WrapSigned64(v) + p) % TWO_64;
    var q := (WrapSigned64(v) + p) / TWO_64;
    assert v + p == TWO_64 * (k + q) + w;
    DivModUnique(v + p, TWO_64, k + q, w);
  }

  // ----- Runs of MAC.L

  function MacLRun(decode: Decoder, cpu: Cpu, n: RegIndex, m: RegIndex, k: nat): (out: Cpu)
    requires Fits(decode, |cpu.mem.ram|)
    ensures out.mem == cpu.mem
  {
    if k == 0 then cpu else MacL(decode, MacLRun(decode, cpu, n, m, k - 1), n, m)
  }

  function Repeat(op: Half, k: nat): (code: seq<Half>)
    ensures |code| == k
  {
    if k == 0 then [] else Repeat(op, k - 1) + [op]
  }

  lemma {:induction false} RunMacL(decode: Decoder, cpu: Cpu, pc: Word, n: RegIndex, m: RegIndex, k: nat)
    requires Fits(decode, |cpu.mem.ram|)
    ensures Run(decode, cpu, pc, Repeat(MACL(m, n), k)) == Some(MacLRun(decode, cpu, n, m, k))
  {
    hide Exec, Run, MacL, MACL, Plus, Wrap;
    if k == 0 {
      RunNothing(decode, cpu, pc);
    } else {
      RunMacL(decode, cpu, pc, n, m, k - 1);
      var mid := MacLRun(decode, cpu, n, m, k - 1);
      RunConcat(decode, cpu, pc, Repeat(MACL(m, n), k - 1), [MACL(m, n)]);
      var pc' := Wrap(pc + 2 * (k - 1));
      DecodeMac(decode, mid, pc', m, n);
      RunLast(decode, mid, pc', MACL(m, n));
    }
  }

  /** After k steps both pointers have moved k words, nothing but the accumulator has changed
      besides, and the next product is the next of the two arrays. */
  ghost predicate AfterL(decode: Decoder, cpu: Cpu, out: Cpu, n: RegIndex, m: RegIndex, k: nat)
  {
    out == cpu.(r := cpu.r[n := Plus(cpu.r[n], 4 * k)][m := Plus(cpu.r[m], 4 * k)], mach := out.mach, macl := out.macl)
  }

  lemma NextL(decode: Decoder, cpu: Cpu, mid: Cpu, n: RegIndex, m: RegIndex, k: nat)
    requires Fits(decode, |cpu.mem.ram|) && n != m && AfterL(decode, cpu, mid, n, m, k)
    ensures AfterL(decode, cpu, MacL(decode, mid, n, m), n, m, k + 1)
    ensures ProductsL(decode, cpu.mem, cpu.r[n], cpu.r[m], k + 1)
            == ProductsL(decode, cpu.mem, cpu.r[n], cpu.r[m], k) + [ProductL(decode, mid, n, m)]
  {
    hide Read32, Signed, Plus, MacL, Wrap;
    MacLStep(decode, mid, n, m);
    PlusTwice(cpu.r[n], 4 * k, 4);
    PlusTwice(cpu.r[m], 4 * k, 4);
  }

  lemma {:induction false} MacLRunDot(decode: Decoder, cpu: Cpu, n: RegIndex, m: RegIndex, k: nat)
    requires Fits(decode, |cpu.mem.ram|) && n != m
    requires cpu.sr.s ==> MIN_48 <= Mac(cpu) <= MAX_48
    ensures var out := MacLRun(decode, cpu, n, m, k);
            var ps := ProductsL(decode, cpu.mem, cpu.r[n], cpu.r[m], k);
            && AfterL(decode, cpu, out, n, m, k)
            && Mac(out) == if cpu.sr.s then Saturate(Mac(cpu), ps, MIN_48, MAX_48) else WrapSigned64(Mac(cpu) + Sum(ps))
  {
    hide MacL, Mac, WrapSigned64, Plus, Clamp, ProductL;
    if k == 0 {
      StartOfRun(cpu, n, m);
    } else {
      MacLRunDot(decode, cpu, n, m, k - 1);
      var mid := MacLRun(decode, cpu, n, m, k - 1);
      NextL(decode, cpu, mid, n, m, k - 1);
      MacLStep(decode, mid, n, m);
      var ps, p := ProductsL(decode, cpu.mem, cpu.r[n], cpu.r[m], k - 1), ProductL(decode, mid, n, m);
      Appended(Mac(cpu), ps, p, MIN_48, MAX_48);
      if cpu.sr.s {
        SaturateStaysInRange(Mac(cpu), ps, MIN_48, MAX_48);
        NoWrap(decode, mid, n, m);
      } else {
        WrapSignedTwice(Mac(cpu) + Sum(ps), p);
      }
    }
  }

  lemma StartOfRun(cpu: Cpu, n: RegIndex, m: RegIndex)
    ensures Plus(cpu.r[n], 0) == cpu.r[n] && Plus(cpu.r[m], 0) == cpu.r[m]
    ensures cpu.r[n := cpu.r[n]][m := cpu.r[m]] == cpu.r
    ensures WrapSigned64(Mac(cpu) + 0) == Mac(cpu)
  {
  }

  /** From inside the 48-bit interval a product cannot wrap the 64-bit accumulator. */
  lemma NoWrap(decode: Decoder, cpu: Cpu, n: RegIndex, m: RegIndex)
    requires Fits(decode, |cpu.mem.ram|) && MIN_48 <= Mac(cpu) <= MAX_48
    ensures WrapSigned64(Mac(cpu) + ProductL(decode, cpu, n, m)) == Mac(cpu) + ProductL(decode, cpu, n, m)
  {
    hide Signed, Read32;
    SignedProductBound(Read32(decode, cpu.mem, cpu.r[n]), Read32(decode, cpu.mem, cpu.r[m]));
    WrapSigned(Mac(cpu) + ProductL(decode, cpu, n, m));
  }

  /** The run of k MAC.L instructions: with S clear the accumulator plus the dot product modulo
      2^64; with S set, from a 48-bit start, the step-wise clamped sum, which stays in 48 bits
      and is the exact sum unless some step overflowed. */
  lemma MacLDotProduct(decode: Decoder, cpu: Cpu, pc: Word, n: RegIndex, m: RegIndex, k: nat)
    requires Fits(decode, |cpu.mem.ram|) && n != m
    requires cpu.sr.s ==> MIN_48 <= Mac(cpu) <= MAX_48
    ensures var run := Run(decode, cpu, pc, Repeat(MACL(m, n), k));
            var ps := ProductsL(decode, cpu.mem, cpu.r[n], cpu.r[m], k);
            && run.Some? && AfterL(decode, cpu, run.value, n, m, k)
            && (!cpu.sr.s ==> Mac(run.value) == WrapSigned64(Mac(cpu) + Sum(ps)))
            && (cpu.sr.s ==>
                  && Mac(run.value) == Saturate(Mac(cpu), ps, MIN_48, MAX_48)
                  && MIN_48 <= Mac(run.value) <= MAX_48
                  && (!Overflows(Mac(cpu), ps, MIN_48, MAX_48) ==> Mac(run.value) == Mac(cpu) + Sum(ps)))
  {
    hide Run, Repeat, MACL, MacLRun, Saturate, Sum, ProductsL, AfterL, Overflows, WrapSigned64, Mac;
    RunMacL(decode, cpu, pc, n, m, k);
    MacLRunDot(decode, cpu, n, m, k);
    var ps := ProductsL(decode, cpu.mem, cpu.r[n], cpu.r[m], k);
    if cpu.sr.s {
      SaturateStaysInRange(Mac(cpu), ps, MIN_48, MAX_48);
      if !Overflows(Mac(cpu), ps, MIN_48, MAX_48) {
        SaturateExact(Mac(cpu), ps, MIN_48, MAX_48);
      }
    }
  }

  /** With one register for both operands the second one comes from the next word. */
  lemma MacLAdjacent(decode: Decoder, cpu: Cpu, pc: Word, n: RegIndex)
    requires Fits(decode, |cpu.mem.ram|) && !cpu.sr.s
    ensures var step := Exec(decode, cpu, pc, MACL(n, n), false); var a := cpu.r[n];
            && step.signal == Next && step.cpu.r == cpu.r[n := Plus(a, 8)] && step.cpu.mem == cpu.mem
            && Mac(step.cpu) == WrapSigned64(Mac(cpu) + Signed(Read32(decode, cpu.mem, a)) * Signed(Read32(decode, cpu.mem, Plus(a, 4))))
  {
    hide Exec, MACL, Read32, Signed, WrapSigned64, Plus;
    DecodeMac(decode, cpu, pc, n, n);
    var a := cpu.r[n];
    PlusTwice(a, 4, 4);
    var sum := Mac(cpu) + Signed(Read32(decode, cpu.mem, a)) * Signed(Read32(decode, cpu.mem, Plus(a, 4)));
    WrapSignedRange(sum);
    MacRoundTrip(MacL(decode, cpu, n, n), WrapSigned64(sum));
  }

  // ----- Runs of MAC.W

  const MIN_32 := -0x8000_0000
  const MAX_32 := 0x7FFF_FFFF

  function ProductW(decode: Decoder, cpu: Cpu, n: RegIndex, m: RegIndex): int
    requires Fits(decode, |cpu.mem.ram|)
  {
    SignedHalf(Read16(decode, cpu.mem, cpu.r[n])) * SignedHalf(Read16(decode, cpu.mem, cpu.r[m]))
  }

  function MacWRun(decode: Decoder, cpu: Cpu, n: RegIndex, m: RegIndex, k: nat): (out: Cpu)
    requires Fits(decode, |cpu.mem.ram|)
    ensures out.mem == cpu.mem
  {
    if k == 0 then cpu else MacW(decode, MacWRun(decode, cpu, n, m, k - 1), n, m)
  }

  lemma {:induction false} RunMacW(decode: Decoder, cpu: Cpu, pc: Word, n: RegIndex, m: RegIndex, k: nat)
    requires Fits(decode, |cpu.mem.ram|)
    ensures Run(decode, cpu, pc, Repeat(MACW(m, n), k)) == Some(MacWRun(decode, cpu, n, m, k))
  {
    hide Exec, Run, MacW, MACW, Plus, Wrap;
    if k == 0 {
      RunNothing(decode, cpu, pc);
    } else {
      RunMacW(decode, cpu, pc, n, m, k - 1);
      var mid := MacWRun(decode, cpu, n, m, k - 1);
      RunConcat(decode, cpu, pc, Repeat(MACW(m, n), k - 1), [MACW(m, n)]);
      var pc' := Wrap(pc + 2 * (k - 1));
      DecodeMac(decode, mid, pc', m, n);
      RunLast(decode, mid, pc', MACW(m, n));
    }
  }

  ghost predicate AfterW(decode: Decoder, cpu: Cpu, out: Cpu, n: RegIndex, m: RegIndex, k: nat)
  {
    out == cpu.(r := cpu.r[n := Plus(cpu.r[n], 2 * k)][m := Plus(cpu.r[m], 2 * k)], mach := out.mach, macl := out.macl)
  }

  /** MACH with its lowest bit set when `sticky` holds. */
  function Sticky(mach: Word, sticky: bool): Word {
    if sticky && mach % 2 == 0 then mach + 1 else mach
  }

  lemma MacWStep(decode: Decoder, cpu: Cpu, n: RegIndex, m: RegIndex)
    requires Fits(decode, |cpu.mem.ram|) && n != m
    ensures var out := MacW(decode, cpu, n, m);
            var p := ProductW(decode, cpu, n, m);
            var sum := Signed(cpu.macl) + p;
            && (cpu.sr.s ==> Signed(out.macl) == Clamp(sum, MIN_32, MAX_32)
                             && out.mach == Sticky(cpu.mach, !(MIN_32 <= sum <= MAX_32)))
            && (!cpu.sr.s ==> Mac(out) == WrapSigned64(Mac(cpu) + p))
            && out == cpu.(r := cpu.r[n := Plus(cpu.r[n], 2)][m := Plus(cpu.r[m], 2)], mach := out.mach, macl := out.macl)
  {
    hide Read16, SignedHalf, WrapSigned64, Plus;
    var p := ProductW(decode, cpu, n, m);
    WrapSignedRange(Mac(cpu) + p);
    MacRoundTrip(MacW(decode, cpu, n, m), WrapSigned64(Mac(cpu) + p));
    SignedWrap(Clamp(Signed(cpu.macl) + p, MIN_32, MAX_32));
  }

  lemma SignedWrap(v: int)
    requires MIN_32 <= v <= MAX_32
    ensures Signed(Wrap(v)) == v
  {
  }

  lemma NextW(decode: Decoder, cpu: Cpu, mid: Cpu, n: RegIndex, m: RegIndex, k: nat)
    requires Fits(decode, |cpu.mem.ram|) && n != m && AfterW(decode, cpu, mid, n, m, k)
    ensures AfterW(decode, cpu, MacW(decode, mid, n, m), n, m, k + 1)
    ensures ProductsW(decode, cpu.mem, cpu.r[n], cpu.r[m], k + 1)
            == ProductsW(decode, cpu.mem, cpu.r[n], cpu.r[m], k) + [ProductW(decode, mid, n, m)]
  {
    hide Read16, SignedHalf, Plus, MacW, Wrap;
    MacWStep(decode, mid, n, m);
    PlusTwice(cpu.r[n], 2 * k, 2);
    PlusTwice(cpu.r[m], 2 * k, 2);
  }

  lemma {:induction false} MacWRunDot(decode: Decoder, cpu: Cpu, n: RegIndex, m: RegIndex, k: nat)
    requires Fits(decode, |cpu.mem.ram|) && n != m
    ensures var out := MacWRun(decode, cpu, n, m, k);
            var ps := ProductsW(decode, cpu.mem, cpu.r[n], cpu.r[m], k);
            && AfterW(decode, cpu, out, n, m, k)
            && (!cpu.sr.s ==> Mac(out) == WrapSigned64(Mac(cpu) + Sum(ps)))
            && (cpu.sr.s ==> Signed(out.macl) == Saturate(Signed(cpu.macl), ps, MIN_32, MAX_32)
                             && out.mach == Sticky(cpu.mach, Overflows(Signed(cpu.macl), ps, MIN_32, MAX_32)))
  {
    hide MacW, Mac, WrapSigned64, Plus, ProductW, ProductsW, Signed, Overflows, Clamp, Saturate, Sum, AfterW, Sticky;
    if k == 0 {
      NothingRun(decode, cpu, n, m);
    } else {
      MacWRunDot(decode, cpu, n, m, k - 1);
      var mid := MacWRun(decode, cpu, n, m, k - 1);
      AfterKeepsStatus(decode, cpu, mid, n, m, k - 1);
      NextW(decode, cpu, mid, n, m, k - 1);
      MacWStep(decode, mid, n, m);
      var ps, p := ProductsW(decode, cpu.mem, cpu.r[n], cpu.r[m], k - 1), ProductW(decode, mid, n, m);
      Appended(Signed(cpu.macl), ps, p, MIN_32, MAX_32);
      OverflowsAppend(Signed(cpu.macl), ps, p, MIN_32, MAX_32);
      WrapSignedTwice(Mac(cpu) + Sum(ps), p);
      StickyTwice(cpu.mach);
    }
  }

  lemma NothingRun(decode: Decoder, cpu: Cpu, n: RegIndex, m: RegIndex)
    requires Fits(decode, |cpu.mem.ram|) && n != m
    ensures var ps := ProductsW(decode, cpu.mem, cpu.r[n], cpu.r[m], 0);
            && AfterW(decode, cpu, cpu, n, m, 0) && Mac(cpu) == WrapSigned64(Mac(cpu) + Sum(ps))
            && Signed(cpu.macl) == Saturate(Signed(cpu.macl), ps, MIN_32, MAX_32)
            && cpu.mach == Sticky(cpu.mach, Overflows(Signed(cpu.macl), ps, MIN_32, MAX_32))
  {
    hide Plus;
    StartOfRun(cpu, n, m);
    NothingOverflows(Signed(cpu.macl));
  }

  lemma AfterKeepsStatus(decode: Decoder, cpu: Cpu, out: Cpu, n: RegIndex, m: RegIndex, k: nat)
    requires AfterW(decode, cpu, out, n, m, k)
    ensures out.sr == cpu.sr && out.mem == cpu.mem
  {
    hide Plus;
  }

  lemma StickyTwice(mach: Word)
    ensures forall a, b :: Sticky(Sticky(mach, a), b) == Sticky(mach, a || b)
  {
  }

  lemma NothingOverflows(start: int)
    ensures !Overflows(start, [], MIN_32, MAX_32)
  {
  }

  /** The run of k MAC.W instructions: with S clear as for MAC.L; with S set MACL is the step-wise
      clamped 32-bit sum, and MACH gains bit 0 exactly when some step saturated. */
  lemma MacWDotProduct(decode: Decoder, cpu: Cpu, pc: Word, n: RegIndex, m: RegIndex, k: nat)
    requires Fits(decode, |cpu.mem.ram|) && n != m
    ensures var run := Run(decode, cpu, pc, Repeat(MACW(m, n), k));
            var ps := ProductsW(decode, cpu.mem, cpu.r[n], cpu.r[m], k);
            && run.Some? && AfterW(decode, cpu, run.value, n, m, k)
            && (!cpu.sr.s ==> Mac(run.value) == WrapSigned64(Mac(cpu) + Sum(ps)))
            && (cpu.sr.s ==>
                  && Signed(run.value.macl) == Saturate(Signed(cpu.macl), ps, MIN_32, MAX_32)
                  && run.value.mach == Sticky(cpu.mach, Overflows(Signed(cpu.macl), ps, MIN_32, MAX_32)))
  {
    hide *;
    RunMacW(decode, cpu, pc, n, m, k);
    MacWRunDot(decode, cpu, n, m, k);
  }
}

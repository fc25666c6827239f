/** Multi-word arithmetic on the SH-4: CLRT and then ADDC, SUBC or NEGC on one pair of registers after
    the other, with anything in between that leaves T alone. */
module Sh4Chains {
  import opened Words
  import opened Limbs
  import opened Memory
  import opened Sh4Isa
  import opened Sh4Program

  const CLRT: Half := 0x0008

  function NEGC(m: RegIndex, n: RegIndex): Half { Op2(0x600A, m, n) }

  /** Where the processor stands before it executes a limb's instruction with operands Rm, Rn. */
  datatype Stand = Stand(cpu: Cpu, pc: Word, m: RegIndex, n: RegIndex)

  datatype Kind = Add | Sub | Neg

  function Opcode(kind: Kind, a: Stand): Half {
    match kind case Add => ADDC(a.m, a.n) case Sub => SUBC(a.m, a.n) case Neg => NEGC(a.m, a.n)
  }

  function Executed(decode: Decoder, kind: Kind, a: Stand): Step
    requires Fits(decode, |a.cpu.mem.ram|)
  {
    Exec(decode, a.cpu, a.pc, Opcode(kind, a), false)
  }

  /** A run through such stands: it starts right after a CLRT, and T is untouched in between. */
  ghost predicate Chain(decode: Decoder, kind: Kind, before: Cpu, pc: Word, stands: seq<Stand>) {
    && stands != []
    && (forall k :: 0 <= k < |stands| ==> Fits(decode, |stands[k].cpu.mem.ram|))
    && Fits(decode, |before.mem.ram|) && stands[0].cpu == Exec(decode, before, pc, CLRT, false).cpu
    && (forall k, l :: 0 <= k && l == k + 1 < |stands| ==> stands[l].cpu.sr.t == Executed(decode, kind, stands[k]).cpu.sr.t)
  }

  /** The limbs in the destination registers before, in the source registers, and as written. */
  function Lefts(stands: seq<Stand>): (xs: seq<Word>)
    ensures |xs| == |stands| && forall k :: 0 <= k < |stands| ==> xs[k] == stands[k].cpu.r[stands[k].n]
  {
    seq(|stands|, k requires 0 <= k < |stands| => stands[k].cpu.r[stands[k].n])
  }

  function Rights(stands: seq<Stand>): (ys: seq<Word>)
    ensures |ys| == |stands| && forall k :: 0 <= k < |stands| ==> ys[k] == stands[k].cpu.r[stands[k].m]
  {
    seq(|stands|, k requires 0 <= k < |stands| => stands[k].cpu.r[stands[k].m])
  }

  function Written(decode: Decoder, kind: Kind, stands: seq<Stand>): (zs: seq<Word>)
    requires forall k :: 0 <= k < |stands| ==> Fits(decode, |stands[k].cpu.mem.ram|)
    ensures |zs| == |stands|
    ensures forall k :: 0 <= k < |stands| ==> zs[k] == Executed(decode, kind, stands[k]).cpu.r[stands[k].n]
  {
    seq(|stands|, k requires 0 <= k < |stands| => Executed(decode, kind, stands[k]).cpu.r[stands[k].n])
  }

  /** T before each limb and after the last one. */
  function Ts(decode: Decoder, kind: Kind, stands: seq<Stand>): (ts: seq<bool>)
    requires stands != [] && forall k :: 0 <= k < |stands| ==> Fits(decode, |stands[k].cpu.mem.ram|)
    ensures |ts| == |stands| + 1 && forall k :: 0 <= k < |stands| ==> ts[k] == stands[k].cpu.sr.t
    ensures ts[|stands|] == Executed(decode, kind, stands[|stands| - 1]).cpu.sr.t
  {
    seq(|stands|, k requires 0 <= k < |stands| => stands[k].cpu.sr.t) + [Executed(decode, kind, stands[|stands| - 1]).cpu.sr.t]
  }

  lemma DecodeNegc(decode: Decoder, cpu: Cpu, pc: Word, m: RegIndex, n: RegIndex)
    requires Fits(decode, |cpu.mem.ram|)
    ensures Exec(decode, cpu, pc, NEGC(m, n), false) == Step(Negc(cpu, n, m), Next)
  {
    hide Op2, Negc, Exec0, Exec2, Exec3, Exec4, Exec8, ExecC;
    Fields2(0x600A, m, n);
  }

  /** One executed limb, in integers; it changes the destination register and T. */
  lemma LimbExact(decode: Decoder, kind: Kind, a: Stand)
    requires Fits(decode, |a.cpu.mem.ram|)
    ensures var out := Executed(decode, kind, a); var x, y, t := a.cpu.r[a.n], a.cpu.r[a.m], Bit(a.cpu.sr.t);
            && out.signal == Next
            && out.cpu == a.cpu.(r := a.cpu.r[a.n := out.cpu.r[a.n]], sr := a.cpu.sr.(t := out.cpu.sr.t))
            && (kind == Add ==> out.cpu.r[a.n] + TWO_32 * Bit(out.cpu.sr.t) == x + y + t)
            && (kind == Sub ==> out.cpu.r[a.n] - TWO_32 * Bit(out.cpu.sr.t) == x - y - t)
            && (kind == Neg ==> out.cpu.r[a.n] - TWO_32 * Bit(out.cpu.sr.t) == 0 - y - t)
  {
    hide Exec, Wrap, Op2;
    DecodeCarry(decode, a.cpu, a.pc, a.m, a.n);
    DecodeNegc(decode, a.cpu, a.pc, a.m, a.n);
    var x, y, t := a.cpu.r[a.n] as int, a.cpu.r[a.m] as int, Bit(a.cpu.sr.t);
    WrapNear(x + y + t);
    WrapNear(x - y - t);
    WrapNear(0 - y - t);
  }

  lemma ClrtClears(decode: Decoder, cpu: Cpu, pc: Word)
    requires Fits(decode, |cpu.mem.ram|)
    ensures Exec(decode, cpu, pc, CLRT, false) == Step(cpu.(sr := cpu.sr.(t := false)), Next)
  {
    hide MacL, MacW;
  }

  /** T hands over from limb to limb. */
  lemma LimbLinked(decode: Decoder, kind: Kind, before: Cpu, pc: Word, stands: seq<Stand>, k: nat)
    requires Chain(decode, kind, before, pc, stands) && k < |stands|
    ensures var a := stands[k]; var ts := Ts(decode, kind, stands);
            && ts[k + 1] == Executed(decode, kind, a).cpu.sr.t && ts[k] == a.cpu.sr.t && !ts[0]
            && Written(decode, kind, stands)[k] == Executed(decode, kind, a).cpu.r[a.n]
            && Lefts(stands)[k] == a.cpu.r[a.n] && Rights(stands)[k] == a.cpu.r[a.m]
  {
    hide Executed, Exec;
    ClrtClears(decode, before, pc);
    if k + 1 < |stands| {
      assert Ts(decode, kind, stands)[k + 1] == stands[k + 1].cpu.sr.t;
    }
  }

  lemma LimbRelation(decode: Decoder, kind: Kind, before: Cpu, pc: Word, stands: seq<Stand>, k: nat)
    requires Chain(decode, kind, before, pc, stands) && k < |stands|
    ensures var x, y, z := Lefts(stands)[k], Rights(stands)[k], Written(decode, kind, stands)[k];
            var ts := Ts(decode, kind, stands);
            && !ts[0]
            && (kind == Add ==> z + TWO_32 * Bit(ts[k + 1]) == x + y + Bit(ts[k]))
            && (kind == Sub ==> z - TWO_32 * Bit(ts[k + 1]) == x - y - Bit(ts[k]))
            && (kind == Neg ==> z - TWO_32 * Bit(ts[k + 1]) == 0 - y - Bit(ts[k]))
  {
    hide Executed, Exec, Lefts, Rights, Written, Ts;
    LimbLinked(decode, kind, before, pc, stands, k);
    LimbExact(decode, kind, stands[k]);
  }

  /** CLRT; ADDC ...: the registers written hold the exact sum, with T as its carry. */
  lemma AddcChainExact(decode: Decoder, before: Cpu, pc: Word, stands: seq<Stand>)
    requires Chain(decode, Add, before, pc, stands)
    ensures Value(Written(decode, Add, stands)) + Radix(|stands|) * Bit(Ts(decode, Add, stands)[|stands|])
            == Value(Lefts(stands)) + Value(Rights(stands))
  {
    hide Executed, Value, Radix, Lefts, Rights, Written, Ts;
    var xs, ys, zs, ts := Lefts(stands), Rights(stands), Written(decode, Add, stands), Ts(decode, Add, stands);
    LimbRelation(decode, Add, before, pc, stands, 0);
    forall k, l | 0 <= k < |xs| && l == k + 1
      ensures zs[k] + TWO_32 * Bit(ts[l]) == xs[k] + ys[k] + Bit(ts[k])
    {
      LimbRelation(decode, Add, before, pc, stands, k);
    }
    SumOfLimbs(xs, ys, zs, ts);
  }

  /** CLRT; SUBC ...: the exact difference, with T as its borrow. */
  lemma SubcChainExact(decode: Decoder, before: Cpu, pc: Word, stands: seq<Stand>)
    requires Chain(decode, Sub, before, pc, stands)
    ensures var borrow := Ts(decode, Sub, stands)[|stands|];
            && Value(Written(decode, Sub, stands)) - Radix(|stands|) * Bit(borrow) == Value(Lefts(stands)) - Value(Rights(stands))
            && (borrow <==> Value(Lefts(stands)) < Value(Rights(stands)))
  {
    hide Executed, Exec, Fits, Value, Radix, Lefts, Rights, Written, Ts;
    var xs, ys, zs, ts := Lefts(stands), Rights(stands), Written(decode, Sub, stands), Ts(decode, Sub, stands);
    LimbRelation(decode, Sub, before, pc, stands, 0);
    forall k, l | 0 <= k < |xs| && l == k + 1
      ensures zs[k] - TWO_32 * Bit(ts[l]) == xs[k] - ys[k] - Bit(ts[k])
    {
      LimbRelation(decode, Sub, before, pc, stands, k);
    }
    DifferenceOfLimbs(xs, ys, zs, ts);
  }

  function Zeros(n: nat): (xs: seq<Word>)
    ensures |xs| == n && forall k :: 0 <= k < n ==> xs[k] == 0
  {
    seq(n, _ => 0)
  }

  lemma {:induction false} ZeroValue(n: nat)
    ensures Value(Zeros(n)) == 0
  {
    if n > 0 {
      assert Zeros(n)[1..] == Zeros(n - 1);
      ZeroValue(n - 1);
    }
  }

  /** CLRT; NEGC ...: the exact negation; T says that the number was not zero. */
  lemma NegcChainExact(decode: Decoder, before: Cpu, pc: Word, stands: seq<Stand>)
    requires Chain(decode, Neg, before, pc, stands)
    ensures var borrow := Ts(decode, Neg, stands)[|stands|];
            && Value(Written(decode, Neg, stands)) == Radix(|stands|) * Bit(borrow) - Value(Rights(stands))
            && (borrow <==> Value(Rights(stands)) > 0)
  {
    hide Executed, Value, Radix, Rights, Lefts, Written, Ts;
    var xs, ys, zs, ts := Zeros(|stands|), Rights(stands), Written(decode, Neg, stands), Ts(decode, Neg, stands);
    LimbRelation(decode, Neg, before, pc, stands, 0);
    forall k, l | 0 <= k < |xs| && l == k + 1
      ensures zs[k] - TWO_32 * Bit(ts[l]) == xs[k] - ys[k] - Bit(ts[k])
    {
      LimbRelation(decode, Neg, before, pc, stands, k);
    }
    DifferenceOfLimbs(xs, ys, zs, ts);
    ZeroValue(|stands|);
  }
}

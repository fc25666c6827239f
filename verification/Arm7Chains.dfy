/** Multi-word arithmetic as the core executes it: ADDS/ADCS and SUBS/SBCS instructions, one limb
    each, with anything in between that leaves C alone. */
module Arm7Chains {
  import opened Options
  import opened Words
  import opened Arm7Isa
  import opened Arm7Step
  import opened Arm7Flags
  import opened Limbs

  const ADD: nat := 0x4
  const ADC: nat := 0x5
  const SUB: nat := 0x2
  const SBC: nat := 0x6

  /** The instruction at the PC. */
  function Fetched(m: Machine): Word {
    var op := Bus32(m.bus, AlignTo(m.pc, 4));
    if op.Some? then op.value else 0
  }

  /** The next step executes this data-processing opcode with flags, into a register. */
  ghost predicate LimbAt(m: Machine, opcode: nat) {
    && !m.halted && !TakesFiq(m) && !TakesIrq(m) && !m.cpsr.t
    && Bus32(m.bus, AlignTo(m.pc, 4)).Some? && ConditionPassed(m.cpsr, Fetched(m) / 0x1000_0000)
    && Decode(Fetched(m)) == DATA && RegField(Fetched(m), 21) == opcode && Flag(Fetched(m), 20) && RegField(Fetched(m), 12) < 15
  }

  /** First operand, second operand, and what the step leaves in the destination and in C. */
  function LeftLimb(m: Machine): Word { ReadReg(m, RegField(Fetched(m), 16), AlignTo(m.pc, 4)) }

  function RightLimb(m: Machine): Word { Operand2(m, AlignTo(m.pc, 4), Fetched(m)).value }

  function Written(m: Machine): Word
    requires RegField(Fetched(m), 12) < 15
  {
    Live(StepOnce(m).m, RegField(Fetched(m), 12))
  }

  function CarryAfter(m: Machine): bool { StepOnce(m).m.cpsr.c }

  lemma LimbSteps(m: Machine, opcode: nat)
    requires LimbAt(m, opcode) && opcode in {ADD, ADC, SUB, SBC}
    ensures var f := if opcode == ADD then AddWithCarry(LeftLimb(m), RightLimb(m), false)
                     else if opcode == ADC then AddWithCarry(LeftLimb(m), RightLimb(m), m.cpsr.c)
                     else if opcode == SUB then SubWithBorrow(LeftLimb(m), RightLimb(m), false)
                     else SubWithBorrow(LeftLimb(m), RightLimb(m), !m.cpsr.c);
            Written(m) == f.result && CarryAfter(m) == f.c
  {
    hide AddWithCarry, SubWithBorrow, Decode, Bus32, AlignTo, ConditionPassed, Operand2, RegField, Flag, Index, And, Or, Xor, Not;
    var pc, op := AlignTo(m.pc, 4), Fetched(m);
    assert StepOnce(m) == Execute(m, pc, op);
    assert Execute(m, pc, op) == DataProcessing(m, pc, op);
    ReadsBack(StepOnce(m).m, m, RegField(op, 12));
  }

  lemma ReadsBack(m': Machine, m: Machine, rd: Reg)
    ensures forall v: Word :: m'.file == Update(m.file, Mode(m), rd, v) && Mode(m') == Mode(m) ==> Live(m', rd) == v
  {
  }

  /** States in which a run stands before its limb instructions, C untouched in between. */
  ghost predicate Chain(ms: seq<Machine>, first: nat, next: nat) {
    && (forall k :: 0 <= k < |ms| ==> LimbAt(ms[k], if k == 0 then first else next))
    && (forall j, k :: 0 <= j && k == j + 1 < |ms| ==> ms[k].cpsr.c == CarryAfter(ms[j]))
  }

  function LeftLimbs(ms: seq<Machine>): (xs: seq<Word>)
    ensures |xs| == |ms|
  {
    if ms == [] then [] else [LeftLimb(ms[0])] + LeftLimbs(ms[1..])
  }

  function RightLimbs(ms: seq<Machine>): (ys: seq<Word>)
    ensures |ys| == |ms|
  {
    if ms == [] then [] else [RightLimb(ms[0])] + RightLimbs(ms[1..])
  }

  function Writes(ms: seq<Machine>): (zs: seq<Word>)
    requires forall k :: 0 <= k < |ms| ==> RegField(Fetched(ms[k]), 12) < 15
    ensures |zs| == |ms|
  {
    if ms == [] then [] else [Written(ms[0])] + Writes(ms[1..])
  }

  lemma ChainOn(ms: seq<Machine>, first: nat, next: nat)
    requires Chain(ms, first, next) && ms != []
    ensures forall k :: 0 <= k < |ms| ==> RegField(Fetched(ms[k]), 12) < 15
    ensures LimbAt(ms[0], first) && Chain(ms[1..], next, next)
    ensures |ms| > 1 ==> ms[1..][0].cpsr.c == CarryAfter(ms[0])
  {
    hide CarryAfter;
    var rest := ms[1..];
    forall k | 0 <= k < |rest|
      ensures LimbAt(rest[k], next)
    {
      assert rest[k] == ms[k + 1];
    }
  }

  lemma {:induction false} AddChain(ms: seq<Machine>, first: nat, carry: bool)
    requires ms != [] && first in {ADD, ADC} && Chain(ms, first, ADC) && carry == (first == ADC && ms[0].cpsr.c)
    ensures forall k :: 0 <= k < |ms| ==> RegField(Fetched(ms[k]), 12) < 15
    ensures AddLimbs(LeftLimbs(ms), RightLimbs(ms), carry) == (Writes(ms), CarryAfter(ms[|ms| - 1]))
    decreases |ms|
  {
    hide LeftLimb, RightLimb, Written, CarryAfter, LimbAt, Chain, AddWithCarry;
    ChainOn(ms, first, ADC);
    LimbSteps(ms[0], first);
    assert LeftLimbs(ms)[1..] == LeftLimbs(ms[1..]) && RightLimbs(ms)[1..] == RightLimbs(ms[1..]);
    if |ms| > 1 {
      AddChain(ms[1..], ADC, CarryAfter(ms[0]));
    }
  }

  lemma {:induction false} SubChain(ms: seq<Machine>, first: nat, carry: bool)
    requires ms != [] && first in {SUB, SBC} && Chain(ms, first, SBC) && carry == (first == SBC ==> ms[0].cpsr.c)
    ensures forall k :: 0 <= k < |ms| ==> RegField(Fetched(ms[k]), 12) < 15
    ensures SubLimbs(LeftLimbs(ms), RightLimbs(ms), carry) == (Writes(ms), CarryAfter(ms[|ms| - 1]))
    decreases |ms|
  {
    hide LeftLimb, RightLimb, Written, CarryAfter, LimbAt, Chain, SubWithBorrow;
    ChainOn(ms, first, SBC);
    LimbSteps(ms[0], first);
    assert LeftLimbs(ms)[1..] == LeftLimbs(ms[1..]) && RightLimbs(ms)[1..] == RightLimbs(ms[1..]);
    if |ms| > 1 {
      SubChain(ms[1..], SBC, CarryAfter(ms[0]));
    }
  }

  /** Executing ADDS on the lowest limb and ADCS on the others writes the limbs of the exact sum and
      leaves the carry out in C. */
  lemma AddsAdcsExact(ms: seq<Machine>)
    requires ms != [] && Chain(ms, ADD, ADC)
    ensures forall k :: 0 <= k < |ms| ==> RegField(Fetched(ms[k]), 12) < 15
    ensures Value(Writes(ms)) + Radix(|ms|) * Bit(CarryAfter(ms[|ms| - 1])) == Value(LeftLimbs(ms)) + Value(RightLimbs(ms))
  {
    hide Chain, LimbAt, Writes, LeftLimbs, RightLimbs, CarryAfter, Value, Radix, AddLimbs;
    AddChain(ms, ADD, false);
    AddChainExact(LeftLimbs(ms), RightLimbs(ms), false);
  }

  /** SUBS on the lowest limb and SBCS on the others: the exact difference, and C tells that the first
      number was not the smaller one. */
  lemma SubsSbcsExact(ms: seq<Machine>)
    requires ms != [] && Chain(ms, SUB, SBC)
    ensures forall k :: 0 <= k < |ms| ==> RegField(Fetched(ms[k]), 12) < 15
    ensures var c := CarryAfter(ms[|ms| - 1]);
            && Value(Writes(ms)) - Radix(|ms|) * Bit(!c) == Value(LeftLimbs(ms)) - Value(RightLimbs(ms))
            && (c <==> Value(LeftLimbs(ms)) >= Value(RightLimbs(ms)))
  {
    hide Chain, LimbAt, Writes, LeftLimbs, RightLimbs, CarryAfter, Value, Radix, SubLimbs;
    SubChain(ms, SUB, true);
    SubChainExact(LeftLimbs(ms), RightLimbs(ms), true);
  }
}

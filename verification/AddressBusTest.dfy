/** `_memTestAddressBus` is an exact test: whatever the address decoder does, the function reports
    the first aliased test address, and reports none exactly when there is none. */
module AddressBusTest {
  import opened Words
  import opened Memory
  import opened Sh4Isa
  import opened AddressBusProgram
  import opened RecompiledFunction

  // ----- The addresses under test

  /** The walking bit after i shifts. */
  function BitAt(i: nat): Word { Wrap(Pow2(i)) }

  /** The i-th test address. */
  function Line(base: Word, i: nat): Word { Plus(base, Times(4, BitAt(i))) }

  /** The loops run for the walking bits 0 .. k-1: the next one is the first to miss the mask. */
  ghost predicate LineCount(mask: Word, k: nat) {
    && k >= 1 && And(BitAt(k), mask) == 0
    && forall i :: 1 <= i < k ==> And(BitAt(i), mask) != 0
  }

  /** Two addresses select the same word of memory. */
  ghost predicate Aliased(decode: Decoder, a: Word, b: Word) { decode(a) == decode(b) }

  ghost predicate SameOrApart(decode: Decoder, a: Word, b: Word) {
    decode(a) == decode(b) || decode(a) + 4 <= decode(b) || decode(b) + 4 <= decode(a)
  }

  /** The decoder maps the addresses under test to whole words. */
  ghost predicate WholeWords(decode: Decoder, base: Word, k: nat) {
    && (forall i :: 0 <= i < k ==> SameOrApart(decode, base, Line(base, i)))
    && (forall i, j :: 0 <= i < k && 0 <= j < k ==> SameOrApart(decode, Line(base, i), Line(base, j)))
  }

  /** Line i shares its word with the base address. */
  ghost predicate HitsBase(decode: Decoder, base: Word, i: nat) { Aliased(decode, base, Line(base, i)) }

  /** Line i shares its word with another line below k. */
  ghost predicate HitsLine(decode: Decoder, base: Word, k: nat, i: nat) {
    exists j :: 0 <= j < k && j != i && Aliased(decode, Line(base, i), Line(base, j))
  }

  /** All test addresses select different words. */
  ghost predicate Injective(decode: Decoder, base: Word, k: nat) {
    && (forall i :: 0 <= i < k ==> !Aliased(decode, base, Line(base, i)))
    && (forall i, j :: 0 <= i < k && 0 <= j < k && i != j ==> !Aliased(decode, Line(base, i), Line(base, j)))
  }

  /** The first line from i on that hits the base, or k. */
  ghost function FirstBaseHit(decode: Decoder, base: Word, k: nat, i: nat): (f: nat)
    requires i <= k
    ensures i <= f <= k && (f < k ==> HitsBase(decode, base, f))
    ensures forall j :: i <= j < f ==> !HitsBase(decode, base, j)
    decreases k - i
  {
    if i == k || HitsBase(decode, base, i) then i else FirstBaseHit(decode, base, k, i + 1)
  }

  /** The first line from i on that hits another line, or k. */
  ghost function FirstLineHit(decode: Decoder, base: Word, k: nat, i: nat): (f: nat)
    requires i <= k
    ensures i <= f <= k && (f < k ==> HitsLine(decode, base, k, f))
    ensures forall j :: i <= j < f ==> !HitsLine(decode, base, k, j)
    decreases k - i
  {
    if i == k || HitsLine(decode, base, k, i) then i else FirstLineHit(decode, base, k, i + 1)
  }

  /** What the function should report: the first line stuck to the base address, else the first
      line that shares a word with another one, else zero. */
  ghost function Verdict(decode: Decoder, base: Word, k: nat): Word {
    var b, l := FirstBaseHit(decode, base, k, 0), FirstLineHit(decode, base, k, 0);
    if b < k then Line(base, b) else if l < k then Line(base, l) else 0
  }

  // ----- The walking bit

  lemma BitDoubles(i: nat)
    ensures Times(2, BitAt(i)) == BitAt(i + 1)
  {
    hide Pow2;
    DoubleBit(i);
  }

  lemma DoubleBit(i: nat)
    ensures Pow2(i + 1) == 2 * Pow2(i)
  {
  }

  lemma BitZero()
    ensures BitAt(0) == 1 && BitAt(32) == 0
  {
    Pow2Small();
    assert Pow2(0) == 1;
  }

  lemma CountBound(mask: Word, k: nat)
    requires LineCount(mask, k)
    ensures k <= 32
  {
    BitZero();
    assert And(BitAt(32), mask) == 0;
  }

  lemma BitsDistinct(i: nat, j: nat)
    requires i < 32 && j < 32 && i != j
    ensures BitAt(i) != BitAt(j)
  {
    Pow2Small();
    hide Pow2;
    Pow2Below(i);
    Pow2Below(j);
    if i < j { Pow2Monotone(i, j); } else { Pow2Monotone(j, i); }
  }

  lemma Pow2Below(i: nat)
    requires i < 32
    ensures Pow2(i) < TWO_32
  {
    Pow2Small();
    hide Pow2;
    if i < 31 { Pow2Monotone(i, 31); }
  }

  // ----- The state between blocks

  /** The registers that stay fixed once the first block has run. */
  ghost predicate Setup(cpu: Cpu, size: nat, base: Word, mask: Word) {
    && |cpu.mem.ram| == size
    && cpu.r[4] == base && cpu.r[6] == mask && cpu.r[9] == PATTERN && cpu.r[10] == ANTIPATTERN
  }

  /** Every line reads the pattern. */
  ghost predicate Filled(decode: Decoder, mem: Mem, base: Word, k: nat)
    requires Fits(decode, |mem.ram|)
  {
    forall j :: 0 <= j < k ==> Read32(decode, mem, Line(base, j)) == PATTERN
  }

  /** Every line reads the pattern, except that those sharing the word of a read the antipattern. */
  ghost predicate MarkedAt(decode: Decoder, mem: Mem, base: Word, k: nat, a: Word)
    requires Fits(decode, |mem.ram|)
  {
    forall j :: 0 <= j < k ==>
      Read32(decode, mem, Line(base, j)) == if Aliased(decode, a, Line(base, j)) then ANTIPATTERN else PATTERN
  }

  lemma Unfold(decode: Decoder, cpu: Cpu, b: Block)
    requires Fits(decode, |cpu.mem.ram|)
    ensures var (next, exit) := RunBlock(decode, cpu, b);
            Recompiled(decode, cpu, b) == if exit.Goto? then Recompiled(decode, next, exit.block) else next
  {
    hide RunBlock, Phase, OuterBits, InnerBits, Stage, Position, Fits;
  }

  // ----- Fill loop

  lemma FillStep(decode: Decoder, cpu: Cpu, base: Word, mask: Word, i: nat)
    requires Fits(decode, |cpu.mem.ram|) && Setup(cpu, |cpu.mem.ram|, base, mask) && cpu.r[7] == BitAt(i)
    ensures var (next, exit) := RunBlock(decode, cpu, B8C);
            && Setup(next, |cpu.mem.ram|, base, mask) && next.r[7] == BitAt(i + 1)
            && next.mem == Write32(decode, cpu.mem, Line(base, i), PATTERN)
            && exit == Goto(if And(BitAt(i + 1), mask) == 0 then B9A else B8C)
  {
    hide Fits, Write32, And, Plus, Times, BitAt, Negative;
    BitDoubles(i);
  }

  /** After the fill loop every line reads the pattern. */
  lemma {:induction false} FillLoop(decode: Decoder, cpu: Cpu, base: Word, mask: Word, k: nat, i: nat) returns (done: Cpu)
    requires Fits(decode, |cpu.mem.ram|) && Setup(cpu, |cpu.mem.ram|, base, mask) && cpu.r[7] == BitAt(i)
    requires LineCount(mask, k) && i < k && WholeWords(decode, base, k)
    requires forall j :: 0 <= j < i ==> Read32(decode, cpu.mem, Line(base, j)) == PATTERN
    ensures Setup(done, |cpu.mem.ram|, base, mask) && Filled(decode, done.mem, base, k)
    ensures Recompiled(decode, cpu, B8C) == Recompiled(decode, done, B9A)
    decreases k - i
  {
    hide Fits, RunBlock, Read32, Write32, And, Line, BitAt, Recompiled;
    FillStep(decode, cpu, base, mask, i);
    Unfold(decode, cpu, B8C);
    var (next, exit) := RunBlock(decode, cpu, B8C);
    forall j | 0 <= j <= i
      ensures Read32(decode, next.mem, Line(base, j)) == PATTERN
    {
      ReadAfterWrite(decode, cpu.mem, Line(base, i), PATTERN, Line(base, j));
    }
    if i + 1 < k {
      done := FillLoop(decode, next, base, mask, k, i + 1);
    } else {
      done := next;
    }
  }

  // ----- Stuck-high scan

  lemma LookStep(decode: Decoder, cpu: Cpu, b: Block, base: Word, mask: Word, i: nat)
    requires Fits(decode, |cpu.mem.ram|) && Setup(cpu, |cpu.mem.ram|, base, mask) && cpu.r[7] == BitAt(i)
    requires b in {B9E, BC2}
    ensures var (next, exit) := RunBlock(decode, cpu, b);
            && Setup(next, |cpu.mem.ram|, base, mask) && next.r[7] == BitAt(i) && next.r[8] == cpu.r[8]
            && next.mem == cpu.mem
            && exit == Goto(if Read32(decode, cpu.mem, Line(base, i)) == PATTERN
                            then (if b == B9E then BA8 else BD0) else (if b == B9E then BEC else BCC))
  {
    hide Fits, Read32, And, Plus, Times, BitAt;
  }

  lemma NextStep(decode: Decoder, cpu: Cpu, b: Block, base: Word, mask: Word, i: nat)
    requires Fits(decode, |cpu.mem.ram|) && Setup(cpu, |cpu.mem.ram|, base, mask) && cpu.r[7] == BitAt(i)
    requires b in {BA8, BD0}
    ensures var (next, exit) := RunBlock(decode, cpu, b);
            && Setup(next, |cpu.mem.ram|, base, mask) && next.r[7] == BitAt(i + 1) && next.r[8] == cpu.r[8]
            && next.mem == cpu.mem
            && exit == Goto(if And(BitAt(i + 1), mask) == 0
                            then (if b == BA8 then BB0 else BD8) else (if b == BA8 then B9E else BC2))
  {
    hide Fits, Read32, And, Plus, Times, BitAt, Negative;
    BitDoubles(i);
  }

  lemma FailStep(decode: Decoder, cpu: Cpu, b: Block, base: Word, mask: Word, i: nat)
    requires Fits(decode, |cpu.mem.ram|) && Setup(cpu, |cpu.mem.ram|, base, mask)
    requires b in {BEC, BF6} && (if b == BEC then cpu.r[7] else cpu.r[8]) == BitAt(i)
    ensures Recompiled(decode, cpu, b).r[0] == Line(base, i)
  {
    hide Fits, Times, BitAt, Wrap, Recompiled;
    Unfold(decode, cpu, b);
    assert Plus(Times(4, BitAt(i)), base) == Plus(base, Times(4, BitAt(i)));
  }

  /** The scan for address lines stuck to the base returns the first such line, or moves on. */
  lemma {:induction false} HighLoop(decode: Decoder, cpu: Cpu, base: Word, mask: Word, k: nat, i: nat) returns (done: Cpu)
    requires Fits(decode, |cpu.mem.ram|) && Setup(cpu, |cpu.mem.ram|, base, mask) && cpu.r[7] == BitAt(i)
    requires LineCount(mask, k) && i < k && MarkedAt(decode, cpu.mem, base, k, base)
    ensures var f := FirstBaseHit(decode, base, k, i);
            if f < k then Recompiled(decode, cpu, B9E).r[0] == Line(base, f)
            else
              && Setup(done, |cpu.mem.ram|, base, mask) && done.mem == cpu.mem
              && Recompiled(decode, cpu, B9E) == Recompiled(decode, done, BB0)
    decreases k - i
  {
    hide Fits, RunBlock, Read32, And, Line, BitAt, Recompiled, Aliased;
    LookStep(decode, cpu, B9E, base, mask, i);
    Unfold(decode, cpu, B9E);
    var (look, _) := RunBlock(decode, cpu, B9E);
    if HitsBase(decode, base, i) {
      FailStep(decode, look, BEC, base, mask, i);
      done := cpu;
    } else {
      NextStep(decode, look, BA8, base, mask, i);
      Unfold(decode, look, BA8);
      var (next, _) := RunBlock(decode, look, BA8);
      if i + 1 < k {
        done := HighLoop(decode, next, base, mask, k, i + 1);
      } else {
        done := next;
      }
    }
  }

  // ----- Nested scan

  /** Storing v at line i of a filled memory, or of one marked at line i, marks or restores it. */
  lemma StoreLine(decode: Decoder, mem: Mem, base: Word, k: nat, a: Word, v: Word)
    requires Fits(decode, |mem.ram|) && v in {PATTERN, ANTIPATTERN}
    requires Filled(decode, mem, base, k) || MarkedAt(decode, mem, base, k, a)
    requires forall j :: 0 <= j < k ==> SameOrApart(decode, a, Line(base, j))
    ensures var mem' := Write32(decode, mem, a, v);
            if v == PATTERN then Filled(decode, mem', base, k) else MarkedAt(decode, mem', base, k, a)
  {
    hide Fits, Read32, Write32, Line;
    var mem' := Write32(decode, mem, a, v);
    forall j | 0 <= j < k
      ensures Read32(decode, mem', Line(base, j)) == if Aliased(decode, a, Line(base, j)) then v else PATTERN
    {
      ReadAfterWrite(decode, mem, a, v, Line(base, j));
    }
  }

  /** The inner scan for lines that share the word of line i: it fails with line i, or moves on. */
  lemma {:induction false} InnerLoop(decode: Decoder, cpu: Cpu, base: Word, mask: Word, k: nat, i: nat, j: nat) returns (done: Cpu)
    requires Fits(decode, |cpu.mem.ram|) && Setup(cpu, |cpu.mem.ram|, base, mask)
    requires cpu.r[7] == BitAt(j) && cpu.r[8] == BitAt(i)
    requires LineCount(mask, k) && i < k && j < k && MarkedAt(decode, cpu.mem, base, k, Line(base, i))
    requires forall l :: 0 <= l < j && l != i ==> !Aliased(decode, Line(base, i), Line(base, l))
    ensures if HitsLine(decode, base, k, i) then Recompiled(decode, cpu, BC2).r[0] == Line(base, i)
            else
              && Setup(done, |cpu.mem.ram|, base, mask) && done.r[8] == BitAt(i) && done.mem == cpu.mem
              && Recompiled(decode, cpu, BC2) == Recompiled(decode, done, BD8)
    decreases k - j
  {
    hide Fits, RunBlock, Read32, And, Line, BitAt, Recompiled, Aliased;
    LookStep(decode, cpu, BC2, base, mask, j);
    Unfold(decode, cpu, BC2);
    var (look, _) := RunBlock(decode, cpu, BC2);
    var hit := Aliased(decode, Line(base, i), Line(base, j));
    if hit {
      CountBound(mask, k);
      if i != j { BitsDistinct(i, j); }
      SelfStep(decode, look, base, mask);
      Unfold(decode, look, BCC);
    }
    if hit && i != j {
      var (fail, _) := RunBlock(decode, look, BCC);
      FailStep(decode, fail, BF6, base, mask, i);
      assert HitsLine(decode, base, k, i);
      done := cpu;
    } else {
      var here := if hit then RunBlock(decode, look, BCC).0 else look;
      NextStep(decode, here, BD0, base, mask, j);
      Unfold(decode, here, BD0);
      var (next, _) := RunBlock(decode, here, BD0);
      if j + 1 < k {
        done := InnerLoop(decode, next, base, mask, k, i, j + 1);
      } else {
        done := next;
      }
    }
  }

  /** The block that forgives a hit on the line being marked. */
  lemma SelfStep(decode: Decoder, cpu: Cpu, base: Word, mask: Word)
    requires Fits(decode, |cpu.mem.ram|) && Setup(cpu, |cpu.mem.ram|, base, mask)
    ensures var (next, exit) := RunBlock(decode, cpu, BCC);
            && Setup(next, |cpu.mem.ram|, base, mask) && next.r[7] == cpu.r[7] && next.r[8] == cpu.r[8]
            && next.mem == cpu.mem
            && exit == Goto(if cpu.r[7] == cpu.r[8] then BD0 else BF6)
  {
    hide Fits;
  }

  lemma MarkStep(decode: Decoder, cpu: Cpu, base: Word, mask: Word, i: nat)
    requires Fits(decode, |cpu.mem.ram|) && Setup(cpu, |cpu.mem.ram|, base, mask) && cpu.r[8] == BitAt(i)
    ensures var (next, exit) := RunBlock(decode, cpu, BB4);
            var mem' := Write32(decode, cpu.mem, Line(base, i), ANTIPATTERN);
            && Setup(next, |cpu.mem.ram|, base, mask) && next.r[8] == BitAt(i) && next.mem == mem'
            && exit == Goto(if Read32(decode, mem', base) == PATTERN then BC0 else BF6)
  {
    hide Fits, Read32, Write32, Plus, Times, BitAt;
  }

  lemma StartInner(decode: Decoder, cpu: Cpu, base: Word, mask: Word)
    requires Fits(decode, |cpu.mem.ram|) && Setup(cpu, |cpu.mem.ram|, base, mask)
    ensures var (next, exit) := RunBlock(decode, cpu, BC0);
            && Setup(next, |cpu.mem.ram|, base, mask) && next.r[7] == BitAt(0) && next.r[8] == cpu.r[8]
            && next.mem == cpu.mem && exit == Goto(BC2)
  {
    BitZero();
    hide Fits, BitAt;
  }

  lemma RestoreStep(decode: Decoder, cpu: Cpu, base: Word, mask: Word, i: nat)
    requires Fits(decode, |cpu.mem.ram|) && Setup(cpu, |cpu.mem.ram|, base, mask) && cpu.r[8] == BitAt(i)
    ensures var (next, exit) := RunBlock(decode, cpu, BD8);
            && Setup(next, |cpu.mem.ram|, base, mask) && next.r[8] == BitAt(i + 1)
            && next.mem == Write32(decode, cpu.mem, Line(base, i), PATTERN)
            && exit == Goto(if And(BitAt(i + 1), mask) == 0 then BE6 else BB4)
  {
    hide Fits, Write32, And, Plus, Times, BitAt, Negative;
    BitDoubles(i);
  }

  lemma SuccessStep(decode: Decoder, cpu: Cpu)
    requires Fits(decode, |cpu.mem.ram|)
    ensures Recompiled(decode, cpu, BE6).r[0] == 0
  {
    hide Fits, Recompiled;
    Unfold(decode, cpu, BE6);
  }

  /** Marking line i, looking at all lines, and taking the mark back. */
  lemma OuterBody(decode: Decoder, cpu: Cpu, base: Word, mask: Word, k: nat, i: nat) returns (done: Cpu)
    requires Fits(decode, |cpu.mem.ram|) && Setup(cpu, |cpu.mem.ram|, base, mask) && cpu.r[8] == BitAt(i)
    requires LineCount(mask, k) && i < k && WholeWords(decode, base, k) && Filled(decode, cpu.mem, base, k)
    requires Read32(decode, cpu.mem, base) == PATTERN && !HitsBase(decode, base, i)
    ensures if HitsLine(decode, base, k, i) then Recompiled(decode, cpu, BB4).r[0] == Line(base, i)
            else
              && Setup(done, |cpu.mem.ram|, base, mask) && done.r[8] == BitAt(i + 1)
              && Filled(decode, done.mem, base, k) && Read32(decode, done.mem, base) == PATTERN
              && Recompiled(decode, cpu, BB4) == Recompiled(decode, done, if And(BitAt(i + 1), mask) == 0 then BE6 else BB4)
  {
    hide Fits, RunBlock, Read32, Write32, And, Line, BitAt, Recompiled;
    MarkStep(decode, cpu, base, mask, i);
    Unfold(decode, cpu, BB4);
    var (marked, _) := RunBlock(decode, cpu, BB4);
    ReadAfterWrite(decode, cpu.mem, Line(base, i), ANTIPATTERN, base);
    StoreLine(decode, cpu.mem, base, k, Line(base, i), ANTIPATTERN);
    StartInner(decode, marked, base, mask);
    Unfold(decode, marked, BC0);
    var (start, _) := RunBlock(decode, marked, BC0);
    var scanned := InnerLoop(decode, start, base, mask, k, i, 0);
    done := cpu;
    if !HitsLine(decode, base, k, i) {
      RestoreStep(decode, scanned, base, mask, i);
      Unfold(decode, scanned, BD8);
      done := RunBlock(decode, scanned, BD8).0;
      ReadAfterWrite(decode, scanned.mem, Line(base, i), PATTERN, base);
      StoreLine(decode, scanned.mem, base, k, Line(base, i), PATTERN);
    }
  }

  /** The nested scan returns the first line that shares a word with another one, or zero. */
  lemma {:induction false} OuterLoop(decode: Decoder, cpu: Cpu, base: Word, mask: Word, k: nat, i: nat)
    requires Fits(decode, |cpu.mem.ram|) && Setup(cpu, |cpu.mem.ram|, base, mask) && cpu.r[8] == BitAt(i)
    requires LineCount(mask, k) && i < k && WholeWords(decode, base, k) && Filled(decode, cpu.mem, base, k)
    requires Read32(decode, cpu.mem, base) == PATTERN
    requires forall j :: 0 <= j < k ==> !HitsBase(decode, base, j)
    ensures var f := FirstLineHit(decode, base, k, i);
            Recompiled(decode, cpu, BB4).r[0] == if f < k then Line(base, f) else 0
    decreases k - i
  {
    hide Fits, RunBlock, Read32, And, Line, BitAt, Recompiled, HitsLine, HitsBase, WholeWords, Filled;
    var done := OuterBody(decode, cpu, base, mask, k, i);
    if !HitsLine(decode, base, k, i) {
      if i + 1 < k {
        OuterLoop(decode, done, base, mask, k, i + 1);
      } else {
        SuccessStep(decode, done);
      }
    }
  }

  // ----- The whole test

  lemma StoreBaseStep(decode: Decoder, cpu: Cpu, b: Block, base: Word, mask: Word)
    requires Fits(decode, |cpu.mem.ram|) && Setup(cpu, |cpu.mem.ram|, base, mask) && b in {B9A, BB0}
    ensures var (next, exit) := RunBlock(decode, cpu, b);
            && Setup(next, |cpu.mem.ram|, base, mask)
            && next.mem == Write32(decode, cpu.mem, base, if b == B9A then ANTIPATTERN else PATTERN)
            && next.r[if b == B9A then 7 else 8] == BitAt(0) && exit == Goto(if b == B9A then B9E else BB4)
  {
    BitZero();
    hide Fits, Write32, BitAt;
  }

  lemma FirstStep(decode: Decoder, cpu: Cpu)
    requires Fits(decode, |cpu.mem.ram|)
    requires LoadLiteral(decode, cpu.mem, PATTERN_AT, PATTERN) == PATTERN
    requires LoadLiteral(decode, cpu.mem, ANTIPATTERN_AT, ANTIPATTERN) == ANTIPATTERN
    ensures var (next, exit) := RunBlock(decode, cpu, B80);
            && Setup(next, |cpu.mem.ram|, cpu.r[4], Minus(cpu.r[5] / 4, 1)) && next.r[7] == BitAt(0)
            && next.mem == cpu.mem && exit == Goto(B8C)
  {
    BitZero();
    hide Fits, BitAt, LoadLiteral;
    assert Plus(cpu.r[5] / 4, 0xFFFF_FFFF) == Minus(cpu.r[5] / 4, 1);
  }

  /** The function returns the verdict, whatever words the decoder maps the test addresses to. */
  lemma TestReturnsVerdict(decode: Decoder, cpu: Cpu, k: nat)
    requires Fits(decode, |cpu.mem.ram|)
    requires LoadLiteral(decode, cpu.mem, PATTERN_AT, PATTERN) == PATTERN
    requires LoadLiteral(decode, cpu.mem, ANTIPATTERN_AT, ANTIPATTERN) == ANTIPATTERN
    requires LineCount(Minus(cpu.r[5] / 4, 1), k) && WholeWords(decode, cpu.r[4], k)
    ensures Recompiled(decode, cpu, B80).r[0] == Verdict(decode, cpu.r[4], k)
  {
    hide Fits, RunBlock, Read32, Write32, And, Line, BitAt, Recompiled, LoadLiteral, HitsLine, Minus;
    var base, mask := cpu.r[4], Minus(cpu.r[5] / 4, 1);
    FirstStep(decode, cpu);
    Unfold(decode, cpu, B80);
    var (start, _) := RunBlock(decode, cpu, B80);
    var filled := FillLoop(decode, start, base, mask, k, 0);
    StoreBaseStep(decode, filled, B9A, base, mask);
    Unfold(decode, filled, B9A);
    var (based, _) := RunBlock(decode, filled, B9A);
    StoreLine(decode, filled.mem, base, k, base, ANTIPATTERN);
    var high := HighLoop(decode, based, base, mask, k, 0);
    if FirstBaseHit(decode, base, k, 0) == k {
      StoreBaseStep(decode, high, BB0, base, mask);
      Unfold(decode, high, BB0);
      var (clean, _) := RunBlock(decode, high, BB0);
      StoreLine(decode, high.mem, base, k, base, PATTERN);
      ReadAfterWrite(decode, high.mem, base, PATTERN, base);
      OuterLoop(decode, clean, base, mask, k, 0);
    }
  }

  lemma NoHitsIsInjective(decode: Decoder, base: Word, k: nat)
    ensures Injective(decode, base, k)
            <==> FirstBaseHit(decode, base, k, 0) == k && FirstLineHit(decode, base, k, 0) == k
  {
    hide Line;
    var b, l := FirstBaseHit(decode, base, k, 0), FirstLineHit(decode, base, k, 0);
    if b < k {
      assert Aliased(decode, base, Line(base, b));
    } else {
      forall i | 0 <= i < k
        ensures !Aliased(decode, base, Line(base, i))
      {
        assert !HitsBase(decode, base, i);
      }
    }
    if l < k {
      var j :| 0 <= j < k && j != l && Aliased(decode, Line(base, l), Line(base, j));
    }
    if l == k {
      forall i, j | 0 <= i < k && 0 <= j < k && i != j
        ensures !Aliased(decode, Line(base, i), Line(base, j))
      {
        assert !HitsLine(decode, base, k, i);
      }
    }
  }

  /** The test passes exactly when all test addresses select different words, or the address it
      reports is itself zero. Where no address under test is zero it is exact. */
  lemma TestIsExact(decode: Decoder, cpu: Cpu, k: nat)
    requires Fits(decode, |cpu.mem.ram|)
    requires LoadLiteral(decode, cpu.mem, PATTERN_AT, PATTERN) == PATTERN
    requires LoadLiteral(decode, cpu.mem, ANTIPATTERN_AT, ANTIPATTERN) == ANTIPATTERN
    requires LineCount(Minus(cpu.r[5] / 4, 1), k) && WholeWords(decode, cpu.r[4], k)
    ensures Recompiled(decode, cpu, B80).r[0] == 0 <==> Injective(decode, cpu.r[4], k) || Verdict(decode, cpu.r[4], k) == 0
    ensures NoLineIsZero(cpu.r[4], k) ==> (Recompiled(decode, cpu, B80).r[0] == 0 <==> Injective(decode, cpu.r[4], k))
  {
    hide Fits, LoadLiteral, LineCount, WholeWords, Recompiled, Line, Minus, Injective;
    TestReturnsVerdict(decode, cpu, k);
    NoHitsIsInjective(decode, cpu.r[4], k);
  }

  // ----- Which addresses may be tested

  ghost predicate NoLineIsZero(base: Word, k: nat) { forall i :: 0 <= i < k ==> Line(base, i) != 0 }

  /** The literals read as baked, k lines are under test, and the decoder maps them to whole words. */
  ghost predicate Testable(decode: Decoder, cpu: Cpu, k: nat) {
    && Fits(decode, |cpu.mem.ram|)
    && LoadLiteral(decode, cpu.mem, PATTERN_AT, PATTERN) == PATTERN
    && LoadLiteral(decode, cpu.mem, ANTIPATTERN_AT, ANTIPATTERN) == ANTIPATTERN
    && LineCount(Minus(cpu.r[5] / 4, 1), k) && WholeWords(decode, cpu.r[4], k)
  }

  /** The test tells whether all test addresses select different words. */
  ghost predicate Exact(decode: Decoder, cpu: Cpu, k: nat) {
    Testable(decode, cpu, k) ==> (Recompiled(decode, cpu, B80).r[0] == 0 <==> Injective(decode, cpu.r[4], k))
  }

  /** For a given base and number of lines the test is exact over every decoder and memory if and
      only if no line is zero. */
  lemma ExactForEveryDecoder(cpu: Cpu, k: nat)
    requires LineCount(Minus(cpu.r[5] / 4, 1), k)
    ensures (forall decode: Decoder, mem: Mem :: Exact(decode, cpu.(mem := mem), k)) <==> NoLineIsZero(cpu.r[4], k)
  {
    hide Line, LineCount, Minus, Fits, LoadLiteral, WholeWords, Injective, Recompiled;
    if NoLineIsZero(cpu.r[4], k) {
      forall decode: Decoder, mem: Mem
        ensures Exact(decode, cpu.(mem := mem), k)
      {
        if Testable(decode, cpu.(mem := mem), k) {
          TestIsExact(decode, cpu.(mem := mem), k);
        }
      }
    } else {
      var i := FirstZero(cpu.r[4], k);
      var decode := ZeroDecoder(cpu.r[4]);
      var mem := Mem(seq(0x4_0000_0000, _ => 0), {});
      ZeroDecoderFits(cpu.r[4], mem);
      ZeroVerdict(cpu.r[4], k, i);
      TestIsExact(decode, cpu.(mem := mem), k);
      assert !Exact(decode, cpu.(mem := mem), k);
    }
  }

  lemma FirstZero(base: Word, k: nat) returns (i: nat)
    requires !NoLineIsZero(base, k)
    ensures i < k && Line(base, i) == 0 && NoLineIsZero(base, i)
  {
    hide Line;
    i := 0;
    while Line(base, i) != 0
      invariant i < k && NoLineIsZero(base, i)
      decreases k - i
    {
      i := i + 1;
    }
  }

  /** Every address has its own word, except that address 0 shares that of the base. */
  function ZeroDecoder(base: Word): Decoder { a => 4 * (if a == 0 then base else a) as int }

  lemma ZeroDecoderFits(base: Word, mem: Mem)
    requires mem == Mem(seq(0x4_0000_0000, _ => 0), {})
    ensures Fits(ZeroDecoder(base), |mem.ram|)
    ensures forall a, v :: LoadLiteral(ZeroDecoder(base), mem, a, v) == v
  {
  }

  /** Over this decoder the faulty line is reported by its address, which is zero. */
  lemma ZeroVerdict(base: Word, k: nat, i: nat)
    requires i < k && Line(base, i) == 0 && NoLineIsZero(base, i)
    ensures var d := ZeroDecoder(base); WholeWords(d, base, k) && Verdict(d, base, k) == 0 && !Injective(d, base, k)
  {
    hide Line;
    var d := ZeroDecoder(base);
    assert HitsBase(d, base, i) && Aliased(d, base, Line(base, i));
    forall j | 0 <= j < i
      ensures !HitsBase(d, base, j)
    {
      if Line(base, j) == base {
        LineStaysOnBase(base, j, i);
      }
    }
  }

  /** Once the walking bit is shifted out of the address, every further line is the base itself. */
  lemma {:induction false} LineStaysOnBase(base: Word, j: nat, i: nat)
    requires j <= i && Line(base, j) == base
    ensures Line(base, i) == base
  {
    hide BitAt;
    if j < i {
      LineStaysOnBase(base, j, i - 1);
      BitDoubles(i - 1);
      OffsetZero(base, BitAt(i - 1));
    }
  }

  lemma OffsetZero(base: Word, x: Word)
    requires Plus(base, Times(4, x)) == base
    ensures Plus(base, Times(4, Times(2, x))) == base
  {
    WrapNear(base as int + Times(4, x));
    assert Times(4, x) == 0;
    assert Times(4, Times(2, x)) == 0;
  }

  /** The smallest case: two test addresses, one of them 0, that share their word. */
  lemma ZeroAddressPasses(decode: Decoder)
    requires decode(0xFFFF_FFFC) == decode(0)
    ensures Line(0xFFFF_FFFC, 0) == 0
    ensures !Injective(decode, 0xFFFF_FFFC, 1) && Verdict(decode, 0xFFFF_FFFC, 1) == 0
  {
    BitZero();
    assert Aliased(decode, 0xFFFF_FFFC, Line(0xFFFF_FFFC, 0));
  }

  /** For a power-of-two size of 4 * 2^e bytes the lines are the bits 0 .. e-1 (bit 0 alone for e = 0). */
  lemma PowerOfTwoLines(size: Word, e: nat)
    requires e <= 29 && size == 4 * Pow2(e)
    ensures LineCount(Minus(size / 4, 1), if e == 0 then 1 else e)
  {
    var mask := Pow2(e) - 1;
    Pow2Below(e);
    assert Minus(size / 4, 1) == mask;
    var k := if e == 0 then 1 else e;
    if e == 0 {
      assert mask == 0;
    }
    forall i | 1 <= i <= k
      ensures And(BitAt(i), mask) == 0 <==> i == k
    {
      if e > 0 {
        MaskedBit(i, e);
      }
    }
  }

  lemma MaskedBit(i: nat, e: nat)
    requires i <= e < 32
    ensures And(BitAt(i), Pow2(e) - 1) == 0 <==> i == e
  {
    hide And, Pow2;
    var p, q := Pow2(i), Pow2(e);
    Pow2Below(i);
    assert BitAt(i) == p;
    AndLowMask(p, e);
    if i < e {
      Pow2Monotone(i, e);
      DivModUnique(p, q, 0, p);
    } else {
      DivModUnique(p, q, 1, 0);
    }
  }

  // ----- The test on the console's own memory

  lemma SdramLine(base: Word, i: nat)
    requires base % 4 == 0 && 0x0C00_0000 <= base % 0x2000_0000
    requires i < 32 && base % 0x2000_0000 + 4 * Pow2(i) < 0x1000_0000
    ensures var o := base % 0x2000_0000 - 0x0C00_0000;
            && Line(base, i) == base + 4 * Pow2(i)
            && Sdram(Line(base, i)) == (o + 4 * Pow2(i)) % RAM_SIZE
            && Sdram(base) == o % RAM_SIZE
            && Sdram(Line(base, i)) % 4 == 0 && Sdram(base) % 4 == 0
  {
    hide Pow2, Sdram, Line;
    SdramAligned(base, 0);
    SdramAligned(base, 4 * Pow2(i));
    LineExact(base, i);
  }

  lemma LineExact(base: Word, i: nat)
    requires i < 32 && base + 4 * Pow2(i) < TWO_32
    ensures Line(base, i) == base + 4 * Pow2(i)
  {
    hide Pow2;
    var p := Pow2(i);
    assert BitAt(i) == p;
    assert Times(4, p) == 4 * p;
  }

  lemma WordsApart(decode: Decoder, a: Word, b: Word)
    requires decode(a) % 4 == 0 && decode(b) % 4 == 0
    ensures SameOrApart(decode, a, b)
  {
  }

  lemma SdramAligned(base: Word, d: nat)
    requires base % 4 == 0 && d % 4 == 0 && 0x0C00_0000 <= base % 0x2000_0000
    requires base % 0x2000_0000 + d < 0x1000_0000
    ensures base + d < TWO_32
    ensures var off := (base % 0x2000_0000 - 0x0C00_0000 + d) % RAM_SIZE;
            Sdram(base + d) == off && off % 4 == 0
  {
    assert (base + d) % 0x2000_0000 == base % 0x2000_0000 + d;
  }

  lemma SameOffset(o: nat, x: nat, y: nat)
    requires x < RAM_SIZE && y < RAM_SIZE
    ensures (o + x) % RAM_SIZE == (o + y) % RAM_SIZE <==> x == y
  {
  }

  lemma SdramWholeWords(base: Word, k: nat)
    requires base % 4 == 0 && 0x0C00_0000 <= base % 0x2000_0000
    requires 1 <= k <= 32 && base % 0x2000_0000 + 4 * Pow2(k - 1) < 0x1000_0000
    ensures WholeWords(Sdram, base, k)
    ensures forall i :: 0 <= i < k ==> base % 0x2000_0000 + 4 * Pow2(i) < 0x1000_0000
    ensures forall i :: 0 <= i < k ==> Line(base, i) != 0
  {
    hide Pow2, Sdram, Line, SameOrApart;
    forall i | 0 <= i < k
      ensures base % 0x2000_0000 + 4 * Pow2(i) < 0x1000_0000
      ensures Sdram(Line(base, i)) % 4 == 0 && Sdram(base) % 4 == 0 && Line(base, i) != 0
    {
      if i < k - 1 { Pow2Monotone(i, k - 1); }
      SdramLine(base, i);
    }
    forall i | 0 <= i < k
      ensures SameOrApart(Sdram, base, Line(base, i))
    {
      WordsApart(Sdram, base, Line(base, i));
    }
    forall i, j | 0 <= i < k && 0 <= j < k
      ensures SameOrApart(Sdram, Line(base, i), Line(base, j))
    {
      WordsApart(Sdram, Line(base, i), Line(base, j));
    }
  }

  /** Run on the emulated SDRAM, inside its window, the test passes for a size of 2^e words
      exactly when that is at most the 16 MiB there are. */
  lemma TestMeasuresSdram(cpu: Cpu, e: nat)
    requires |cpu.mem.ram| == RAM_SIZE && Fits(Sdram, RAM_SIZE)
    requires LoadLiteral(Sdram, cpu.mem, PATTERN_AT, PATTERN) == PATTERN
    requires LoadLiteral(Sdram, cpu.mem, ANTIPATTERN_AT, ANTIPATTERN) == ANTIPATTERN
    requires 1 <= e <= 29 && cpu.r[5] == 4 * Pow2(e)
    requires cpu.r[4] % 4 == 0 && 0x0C00_0000 <= cpu.r[4] % 0x2000_0000
    requires cpu.r[4] % 0x2000_0000 + 4 * Pow2(e - 1) < 0x1000_0000
    ensures Recompiled(Sdram, cpu, B80).r[0] == 0 <==> cpu.r[5] <= RAM_SIZE
  {
    hide Fits, LoadLiteral, Recompiled, LineCount, WholeWords, Sdram, Line, Pow2, Minus;
    PowerOfTwoLines(cpu.r[5], e);
    SdramWholeWords(cpu.r[4], e);
    TestIsExact(Sdram, cpu, e);
    SdramInjective(cpu.r[4], e);
    Pow2Compare(e);
  }

  lemma Pow2Compare(e: nat)
    ensures e <= 22 <==> 4 * Pow2(e) <= RAM_SIZE
  {
    assert Pow2(22) == 0x40_0000 by { assert Pow2(8) == 0x100; assert Pow2(16) == 0x1_0000; }
    hide Pow2;
    if e < 22 { Pow2Monotone(e, 22); } else if e > 22 { Pow2Monotone(22, e); }
  }

  lemma SdramInjective(base: Word, k: nat)
    requires base % 4 == 0 && 0x0C00_0000 <= base % 0x2000_0000
    requires 1 <= k <= 32 && base % 0x2000_0000 + 4 * Pow2(k - 1) < 0x1000_0000
    ensures Injective(Sdram, base, k) <==> k <= 22
  {
    hide Pow2, Sdram, Line, Injective;
    SdramWholeWords(base, k);
    if k <= 22 {
      SdramTells(base, k);
    } else {
      SdramMirrors(base, k);
    }
  }

  lemma SdramTells(base: Word, k: nat)
    requires base % 4 == 0 && 0x0C00_0000 <= base % 0x2000_0000 && k <= 22
    requires forall i :: 0 <= i < k ==> base % 0x2000_0000 + 4 * Pow2(i) < 0x1000_0000
    ensures Injective(Sdram, base, k)
  {
    hide Pow2, Sdram, Line;
    forall i | 0 <= i < k
      ensures !Aliased(Sdram, base, Line(base, i))
    {
      TwoLines(base, i, i);
    }
    forall i, j | 0 <= i < k && 0 <= j < k && i != j
      ensures !Aliased(Sdram, Line(base, i), Line(base, j))
    {
      TwoLines(base, i, j);
    }
  }

  lemma TwoLines(base: Word, i: nat, j: nat)
    requires base % 4 == 0 && 0x0C00_0000 <= base % 0x2000_0000 && i < 22 && j < 22
    requires base % 0x2000_0000 + 4 * Pow2(i) < 0x1000_0000 && base % 0x2000_0000 + 4 * Pow2(j) < 0x1000_0000
    ensures Sdram(base) != Sdram(Line(base, i)) && (i != j ==> Sdram(Line(base, i)) != Sdram(Line(base, j)))
  {
    hide Pow2, Sdram, Line;
    var o := base % 0x2000_0000 - 0x0C00_0000;
    SdramLine(base, i);
    SdramLine(base, j);
    SmallStep(i);
    SmallStep(j);
    SameOffset(o, 4 * Pow2(i), 0);
    SameOffset(o, 4 * Pow2(i), 4 * Pow2(j));
    if i < j { Pow2Monotone(i, j); } else if j < i { Pow2Monotone(j, i); }
  }

  lemma SdramMirrors(base: Word, k: nat)
    requires base % 4 == 0 && 0x0C00_0000 <= base % 0x2000_0000 && k > 22
    requires base % 0x2000_0000 + 4 * Pow2(22) < 0x1000_0000
    ensures !Injective(Sdram, base, k)
  {
    hide Pow2, Sdram, Line;
    SdramLine(base, 22);
    SmallStep(21);
    DoubleBit(21);
    assert Aliased(Sdram, base, Line(base, 22));
  }

  lemma SmallStep(i: nat)
    requires i <= 21
    ensures 4 * Pow2(i) < RAM_SIZE && (i == 21 ==> 8 * Pow2(i) == RAM_SIZE)
  {
    assert Pow2(21) == 0x20_0000 by { assert Pow2(8) == 0x100; assert Pow2(16) == 0x1_0000; }
    hide Pow2;
    if i < 21 { Pow2Monotone(i, 21); }
  }
}

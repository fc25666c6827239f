/** Executed LDM and STM: which words go where, and stacking as instructions. */
module Arm7Blocks {
  import opened Options
  import opened Words
  import opened Bits
  import opened Arm7Isa
  import opened Arm7Step
  import opened Arm7Encoding
  import opened Arm7Shifter
  import opened Arm7Data
  import opened Arm7Access
  import opened Arm7Transfers

  // ----- Encoding

  predicate ProperBlock(b: Block) { b.rn < 16 && b.list < 0x1_0000 }

  function BlockTop(b: Block): nat {
    0x80 + 0x10 * Bit(b.pre) + 8 * Bit(b.up) + 4 * Bit(b.caret) + 2 * Bit(b.writeback) + Bit(b.load)
  }

  function BlockOp(cond: Nibble, b: Block): Word
    requires ProperBlock(b)
  {
    Instruction(cond, BlockTop(b), b.rn, b.list / 0x1000, b.list % 0x1000)
  }

  lemma BlockDigits(top: nat, p: nat, u: nat, c: nat, w: nat, l: nat)
    requires top == 0x80 + 0x10 * p + 8 * u + 4 * c + 2 * w + l && p < 2 && u < 2 && c < 2 && w < 2 && l < 2
    ensures top < 0x100 && top / 0x40 == 2 && top / 0x20 == 4 && top / 8 >= 16 && top / 4 >= 32
            && top / 0x10 % 2 == p && top / 8 % 2 == u && top / 4 % 2 == c && top / 2 % 2 == w && top % 2 == l
  {
    var rest := 0x10 * p + 8 * u + 4 * c + 2 * w + l;
    SixDigits(rest, 0, p, u, c, w, l);
    DivModUnique(0x80 + rest, 0x20, 4, rest);
    DivModUnique(0x80 + rest, 0x10, 8 + p, rest - 0x10 * p);
    DivModUnique(0x80 + rest, 8, 16 + 2 * p + u, rest - 0x10 * p - 8 * u);
    DivModUnique(0x80 + rest, 4, 32 + 4 * p + 2 * u + c, 2 * w + l);
    DivModUnique(0x80 + rest, 2, 64 + 8 * p + 4 * u + 2 * c + w, l);
    Parity(4, p);
    Parity(16 + 2 * p + u, c);
    Parity(32 + 4 * p + 2 * u + c, w);
    Parity(64 + 8 * p + 4 * u + 2 * c + w, l);
  }

  lemma Parity(h: nat, x: nat)
    requires x < 2
    ensures (2 * h + x) % 2 == x
  {
  }

  lemma BlockDecodes(cond: Nibble, b: Block)
    requires ProperBlock(b)
    ensures var op := BlockOp(cond, b); Decode(op) == BLOCK && BlockOf(op) == b && op / 0x1000_0000 == cond
  {
    hide Flag, RegField, Field, BlockTop, Instruction, Decode;
    BlockFlags(b);
    BlockFields(cond, BlockTop(b), b.rn, b.list);
  }

  lemma BlockFlags(b: Block)
    ensures var top := BlockTop(b);
            && top < 0x100 && top / 0x40 == 2 && top / 0x20 == 4 && top / 8 >= 16 && top / 4 >= 32
            && (top / 0x10 % 2 == 1 <==> b.pre) && (top / 8 % 2 == 1 <==> b.up) && (top / 4 % 2 == 1 <==> b.caret)
            && (top / 2 % 2 == 1 <==> b.writeback) && (top % 2 == 1 <==> b.load)
  {
    BlockDigits(BlockTop(b), Bit(b.pre), Bit(b.up), Bit(b.caret), Bit(b.writeback), Bit(b.load));
    hide BlockTop;
  }

  lemma BlockFields(cond: Nibble, top: nat, rn: Nibble, list: nat)
    requires top < 0x100 && list < 0x1_0000 && top / 0x40 == 2 && top / 0x20 == 4 && top / 8 >= 16 && top / 4 >= 32
    ensures var op := Instruction(cond, top, rn, list / 0x1000, list % 0x1000);
            && Decode(op) == BLOCK && op / 0x1000_0000 == cond && op % 0x1_0000 == list && RegField(op, 16) == rn
            && Flag(op, 24) == (top / 0x10 % 2 == 1) && Flag(op, 23) == (top / 8 % 2 == 1)
            && Flag(op, 22) == (top / 4 % 2 == 1) && Flag(op, 21) == (top / 2 % 2 == 1) && Flag(op, 20) == (top % 2 == 1)
  {
    hide Flag, RegField, Field;
    var rd, low := list / 0x1000, list % 0x1000;
    DivModUnique(Instruction(cond, top, rn, rd, low), 0x1_0000, 0x1000 * cond + 0x10 * top + rn, list);
    hide Instruction;
    Registers(cond, top, rn, rd, low);
    Classes(cond, top, rn, rd, low);
    Subclasses(cond, top, rn, rd, low);
    OpcodeBits(cond, top, rn, rd, low);
    CrossFields(cond, top, rn, rd, low);
  }

  /** The next step is that block transfer. */
  lemma BlockExecutes(m: Machine, cond: Nibble, b: Block)
    requires ProperBlock(b) && Executes(m, BlockOp(cond, b))
    ensures StepOnce(m) == BlockTransfer(m, AlignTo(m.pc, 4), b)
  {
    hide BlockOp, BlockTransfer, StepOnce, AlignTo, Decode, BlockOf, Bus32, ConditionPassed;
    BlockDecodes(cond, b);
    StepExecutes(m, BlockOp(cond, b));
  }

  // ----- Where the words are

  /** The lowest word of the block, and the base afterwards. */
  function Lowest(m: Machine, b: Block): int
    requires b.rn < 15
  {
    var base, n := Live(m, b.rn) as int, CountFrom(b.list, 0);
    if b.up then (if b.pre then base + 4 else base) else (if b.pre then base - 4 * n else base - 4 * n + 4)
  }

  function Beyond(m: Machine, b: Block): int
    requires b.rn < 15
  {
    var base, n := Live(m, b.rn) as int, CountFrom(b.list, 0);
    if b.up then base + 4 * n else base - 4 * n
  }

  /** How many listed registers are below j. */
  function CountBelow(list: nat, j: nat): (n: nat) {
    if j == 0 then 0 else CountBelow(list, j - 1) + if InList(list, j - 1) then 1 else 0
  }

  lemma {:induction false} RanksAgree(list: nat, j: nat)
    requires j <= 16
    ensures CountBelow(list, j) == Rank(list, 0, j)
  {
    hide InList;
    if j > 0 {
      RanksAgree(list, j - 1);
    }
  }

  /** The word of register j: ascending registers at ascending addresses. */
  function WordOf(m: Machine, b: Block, j: nat): Word
    requires b.rn < 15
  {
    Wrap(Lowest(m, b) + 4 * CountBelow(b.list, j))
  }

  lemma WordAtPlace(m: Machine, b: Block, j: nat)
    requires b.rn < 15 && j <= 16
    ensures WordOf(m, b, j) == Place(b.list, 0, StartAddress(b, Live(m, b.rn)), j)
    ensures NewBase(b, Live(m, b.rn)) == Wrap(Beyond(m, b))
  {
    hide InList, Wrap, CountFrom, CountBelow;
    RanksAgree(b.list, j);
    PlusTwice(Live(m, b.rn), Lowest(m, b) - Live(m, b.rn), 4 * CountBelow(b.list, j));
    hide Index;
  }

  /** The register file after write-back. */
  function AfterBase(m: Machine, file: File, b: Block): File
    requires b.rn < 15
  {
    if b.writeback then Update(file, Mode(m), b.rn, Wrap(Beyond(m, b))) else file
  }

  /** An executed STM: every listed register is at its word, R15 as the instruction's address plus 12, the
      banked ones of User with `^`; the base moves on and no other register changes. */
  lemma BlockStores(m: Machine, cond: Nibble, b: Block)
    requires ProperBlock(b) && !b.load && Executes(m, BlockOp(cond, b)) && StepOnce(m).status == Executed
    ensures b.rn != 15 && CountFrom(b.list, 0) > 0
    ensures var out := StepOnce(m).m;
            && out == m.(pc := Next(m), bus := out.bus, file := AfterBase(m, m.file, b))
            && forall j :: 0 <= j < 16 && InList(b.list, j) ==>
                 Bus32(out.bus, WordOf(m, b, j)) == Some(if j == 15 then Plus(AlignTo(m.pc, 4), 12) else View(m.file, if b.caret then USR else Mode(m), j))
  {
    hide StepOnce, Executes, BlockOp, InList, CountFrom, StoreList, Bus32, AlignTo, StartAddress, NewBase, Index, Place, WordOf, Beyond, Wrap;
    BlockExecutes(m, cond, b);
    WordAtPlace(m, b, 0);
    var pc, start := AlignTo(m.pc, 4), StartAddress(b, Live(m, b.rn));
    StoredAtPlaces(m, m.bus, pc, b.list, 0, start, b.caret);
    forall j | 0 <= j < 16 && InList(b.list, j)
      ensures Bus32(StepOnce(m).m.bus, WordOf(m, b, j)) == Some(if j == 15 then Plus(pc, 12) else View(m.file, if b.caret then USR else Mode(m), j))
    {
      WordAtPlace(m, b, j);
    }
  }

  /** A finished load loop put every listed register's word there, and R15's into the PC value. */
  lemma {:induction false} LoadFinished(file: File, mode: nat, bus: Bus, list: nat, i: nat, a: Word)
    requires i <= 16 && LoadList(file, mode, bus, list, i, a).done
    ensures var l := LoadList(file, mode, bus, list, i, a);
            && (forall j: Reg :: i <= j && InList(list, j) ==> Bus32(bus, Place(list, i, a, j)) == Some(View(l.file, mode, j)))
            && (forall k :: 0 <= k < 30 && (forall j: Reg :: i <= j && InList(list, j) ==> Index(mode, j) != k) ==> l.file[k] == file[k])
            && (if i <= 15 && InList(list, 15) then l.pcValue.Some? && Bus32(bus, Place(list, i, a, 15)) == l.pcValue else l.pcValue.None?)
    decreases 16 - i
  {
    hide Bus32, Plus, InList, Place, Index;
    if i < 16 {
      forall j | i < j < 16 && InList(list, j)
        ensures Place(list, i, a, j) == Place(list, i + 1, if InList(list, i) then Plus(a, 4) else a, j)
      {
        PlaceStep(list, i, a, j);
      }
      PlaceStep(list, i, a, 16);
      if !InList(list, i) {
        LoadFinished(file, mode, bus, list, i + 1, a);
      } else if i < 15 {
        LoadFinished(Update(file, mode, i, Bus32(bus, a).value), mode, bus, list, i + 1, Plus(a, 4));
        Distinct(mode, i);
      }
    }
  }

  /** An executed LDM without write-back to a listed register: every listed register is its word, the
      base moves on, and no other register changes; with R15 in the list execution goes on at its word. */
  lemma BlockLoads(m: Machine, cond: Nibble, b: Block)
    requires ProperBlock(b) && b.load && Executes(m, BlockOp(cond, b)) && StepOnce(m).status == Executed
    ensures b.rn != 15 && CountFrom(b.list, 0) > 0
    ensures b.caret && InList(b.list, 15) ==>
              HasSpsr(Mode(m)) && StepOnce(m).m.cpsr == Restored(m)
    ensures var out, mode := StepOnce(m).m, if b.caret && !InList(b.list, 15) then USR else Mode(m);
            && out.bus == m.bus && out.spsr == m.spsr && (!b.caret || !InList(b.list, 15) ==> out.cpsr == m.cpsr)
            && (forall j: Reg :: InList(b.list, j) && !(b.writeback && Index(Mode(m), b.rn) == Index(mode, j)) ==>
                  Bus32(m.bus, WordOf(m, b, j)) == Some(View(out.file, mode, j)))
            && (b.writeback ==> View(out.file, Mode(m), b.rn) == Wrap(Beyond(m, b)))
            && (forall k :: 0 <= k < 30 && (forall j: Reg :: InList(b.list, j) ==> Index(mode, j) != k) && !(b.writeback && k == Index(Mode(m), b.rn)) ==>
                  out.file[k] == m.file[k])
            && (!InList(b.list, 15) ==> out.pc == Next(m))
            && (InList(b.list, 15) ==> match Bus32(m.bus, WordOf(m, b, 15)) case None => false
                                       case Some(w) => out.pc == AlignTo(w, if b.caret && out.cpsr.t then 2 else 4))
  {
    hide StepOnce, Executes, BlockOp, InList, CountFrom, LoadList, Bus32, AlignTo, StartAddress, NewBase, Index, Place, WordOf, Beyond, Wrap, GetSpsr, ApplyPsrFields;
    BlockExecutes(m, cond, b);
    forall x: Machine | x.spsr == m.spsr && x.cpsr == m.cpsr
      ensures GetSpsr(x) == GetSpsr(m)
    {
      SameSpsr(x, m);
    }
    WholePsr(m.cpsr, GetSpsr(m));
    var start := StartAddress(b, Live(m, b.rn));
    var mode := if b.caret && !InList(b.list, 15) then USR else Mode(m);
    LoadFinished(m.file, mode, m.bus, b.list, 0, start);
    WordAtPlace(m, b, 15);
    forall j: Reg
      ensures WordOf(m, b, j) == Place(b.list, 0, start, j)
    {
      WordAtPlace(m, b, j);
    }
  }

  lemma SameSpsr(x: Machine, m: Machine)
    ensures x.spsr == m.spsr && x.cpsr == m.cpsr ==> GetSpsr(x) == GetSpsr(m)
  {
  }

  lemma WholePsr(p: Psr, q: Psr)
    ensures ApplyPsrFields(p, q, 0xF) == q
  {
  }

  /** The encodings that are refused, whole: R15 as base, an empty list, and a return with `^` where there
      is no saved status. All others run, unless an address is unmapped. */
  lemma BlockRefused(m: Machine, cond: Nibble, b: Block)
    requires ProperBlock(b) && Executes(m, BlockOp(cond, b))
    ensures var bad := b.rn == 15 || CountFrom(b.list, 0) == 0 || (b.caret && b.load && InList(b.list, 15) && !HasSpsr(Mode(m)));
            && (bad <==> StepOnce(m).status == Unsupported) && (bad ==> StepOnce(m) == Stop(m, Unsupported))
            && (!bad ==> StepOnce(m).status == Executed || (StepOnce(m).status == Fault && StepOnce(m).m.halted))
  {
    hide StepOnce, Executes, BlockOp, InList, CountFrom, LoadList, StoreList, Bus32, AlignTo, StartAddress, NewBase, Index, GetSpsr, ApplyPsrFields;
    BlockExecutes(m, cond, b);
  }

  // ----- Stacking as instructions

  /** STM with write-back, anything that keeps mode, base and stored words, and the opposite LDM. */
  lemma ExecutedRoundTrip(m: Machine, cond: Nibble, st: Block, m1: Machine, cond1: Nibble, ld: Block)
    requires ProperBlock(st) && Plain(st) && !st.load && !st.caret && st.writeback
    requires ProperBlock(ld) && Opposite(st, ld) && ld.load && !ld.caret && ld.writeback
    requires Executes(m, BlockOp(cond, st)) && StepOnce(m).status == Executed && Executes(m1, BlockOp(cond1, ld))
    requires var s := StepOnce(m).m; Mode(m1) == Mode(m) && Live(m1, st.rn) == Live(s, st.rn) && BlockIntact(m, st, s.bus, m1.bus)
    ensures var out := StepOnce(m1);
            && out.status == Executed && out.m.cpsr == m1.cpsr && out.m.bus == m1.bus
            && (forall j: Reg :: InList(st.list, j) ==> Live(out.m, j) == Live(m, j)) && Live(out.m, st.rn) == Live(m, st.rn)
  {
    hide StepOnce, Executes, BlockOp, BlockTransfer, InList, Index, BlockIntact, AlignTo, CountFrom;
    BlockExecutes(m, cond, st);
    BlockExecutes(m1, cond1, ld);
    StackRoundTrip(m, AlignTo(m.pc, 4), st, m1, AlignTo(m1.pc, 4), ld);
  }
}

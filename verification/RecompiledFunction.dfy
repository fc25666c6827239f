/** The generated function as a whole: its blocks linked by their jumps, always terminating. */
module RecompiledFunction {
  import opened Words
  import opened Memory
  import opened Sh4Isa
  import opened Sh4Core
  import opened AddressBusProgram
  import opened InterpreterLoop

  // ----- The termination measure: program phase, outer walking bit, inner walking bit

  function Phase(b: Block): nat {
    match b
    case B80 => 9 case B8C => 8 case B9A => 7 case B9E => 6 case BA8 => 6 case BB0 => 5
    case BE6 => 0 case BEC => 0 case BF6 => 0
    case _ => 4
  }

  function Stage(b: Block): nat {
    match b
    case BB4 => 5 case BC0 => 4 case BC2 => 3 case BCC => 3 case BD0 => 3 case BD8 => 2
    case _ => 0
  }

  function Position(b: Block): nat {
    match b
    case B9E => 1 case BC2 => 2 case BCC => 1
    case _ => 0
  }

  function OuterBits(cpu: Cpu, b: Block): int {
    if Phase(b) == 4 then ShiftsLeft(cpu.r[8]) else 0
  }

  function InnerBits(cpu: Cpu, b: Block): int {
    if b in {B8C, B9E, BA8, BC2, BCC, BD0} then ShiftsLeft(cpu.r[7]) else 0
  }

  lemma NextBitProgress(cpu: Cpu, n: RegIndex)
    requires n in {7, 8}
    ensures var out := NextBit(cpu, n);
            && out.r[n] == Times(2, cpu.r[n]) && (forall i: RegIndex :: i != n && i != 0 ==> out.r[i] == cpu.r[i])
            && (!out.sr.t ==> 0 <= ShiftsLeft(out.r[n]) < ShiftsLeft(cpu.r[n]))
  {
    hide ShiftsLeft, Times;
    var out := NextBit(cpu, n);
    if !out.sr.t {
      ShiftProgress(cpu.r[n]);
    }
  }

  /** Every jump makes the measure smaller. */
  lemma BlockProgress(decode: Decoder, cpu: Cpu, b: Block)
    requires Fits(decode, |cpu.mem.ram|)
    requires RunBlock(decode, cpu, b).1.Goto?
    ensures var (out, exit) := RunBlock(decode, cpu, b);
            var t := exit.block;
            && OuterBits(out, t) >= 0 && InnerBits(out, t) >= 0
            && (|| Phase(t) < Phase(b)
                || (Phase(t) == Phase(b) && OuterBits(out, t) < OuterBits(cpu, b))
                || (Phase(t) == Phase(b) && OuterBits(out, t) == OuterBits(cpu, b) && Stage(t) < Stage(b))
                || (Phase(t) == Phase(b) && OuterBits(out, t) == OuterBits(cpu, b) && Stage(t) == Stage(b)
                    && (|| InnerBits(out, t) < InnerBits(cpu, b)
                        || (InnerBits(out, t) == InnerBits(cpu, b) && Position(t) < Position(b)))))
  {
    hide ShiftsLeft, NextBit, Store, Read32, LoadLiteral, Plus, Times;
    var (out, exit) := RunBlock(decode, cpu, b);
    ShiftsLeftBound(out.r[7]);
    ShiftsLeftBound(out.r[8]);
    match b
    case B8C =>
      var c1 := OffsetOf(cpu, 7);
      StoreKeepsRegs(decode, c1, Plus(c1.r[4], c1.r[0]), c1.r[9]);
      NextBitProgress(Store(decode, c1, Plus(c1.r[4], c1.r[0]), c1.r[9]), 7);
    case BA8 => NextBitProgress(cpu, 7);
    case BD0 => NextBitProgress(cpu, 7);
    case BD8 =>
      var c1 := OffsetOf(cpu, 8);
      StoreKeepsRegs(decode, c1, Plus(c1.r[4], c1.r[0]), c1.r[9]);
      NextBitProgress(Store(decode, c1, Plus(c1.r[4], c1.r[0]), c1.r[9]), 8);
    case BB4 =>
      var c1 := OffsetOf(cpu, 8);
      StoreKeepsRegs(decode, c1, Plus(c1.r[4], c1.r[0]), c1.r[10]);
    case _ =>
  }

  lemma StoreKeepsRegs(decode: Decoder, cpu: Cpu, a: Word, v: Word)
    requires Fits(decode, |cpu.mem.ram|)
    ensures Store(decode, cpu, a, v).r == cpu.r
  {
  }

  /** The state the generated function returns with when entered at label b. */
  function Recompiled(decode: Decoder, cpu: Cpu, b: Block): (out: Cpu)
    requires Fits(decode, |cpu.mem.ram|)
    ensures |out.mem.ram| == |cpu.mem.ram| && out.pr == cpu.pr
    decreases Phase(b), OuterBits(cpu, b), Stage(b), InnerBits(cpu, b), Position(b)
  {
    hide RunBlock, ShiftsLeft, InnerBits, OuterBits;
    var (next, exit) := RunBlock(decode, cpu, b);
    match exit
    case Leave => next
    case Goto(t) =>
      BlockProgress(decode, cpu, b);
      Recompiled(decode, next, t)
  }

  /** The cycles a block's header charges. */
  function Cost(b: Block): nat {
    match b
    case B80 => 6 case B8C => 7 case B9A => 2 case B9E => 5 case BA8 => 4 case BB0 => 2 case BB4 => 6
    case BC0 => 1 case BC2 => 5 case BCC => 2 case BD0 => 4 case BD8 => 7 case BE6 => 4 case BEC => 6 case BF6 => 6
  }

  /** What the generated function charges from label b on, and through how many blocks it goes. */
  function Spent(decode: Decoder, cpu: Cpu, b: Block): (spent: (nat, nat))
    requires Fits(decode, |cpu.mem.ram|)
    ensures spent.1 >= 1
    decreases Phase(b), OuterBits(cpu, b), Stage(b), InnerBits(cpu, b), Position(b)
  {
    hide RunBlock, ShiftsLeft, InnerBits, OuterBits, Cost;
    var (next, exit) := RunBlock(decode, cpu, b);
    match exit
    case Leave => (Cost(b), 1)
    case Goto(t) =>
      BlockProgress(decode, cpu, b);
      var rest := Spent(decode, next, t);
      (Cost(b) + rest.0, 1 + rest.1)
  }

  function RecompiledCycles(decode: Decoder, cpu: Cpu, b: Block): nat
    requires Fits(decode, |cpu.mem.ram|)
  {
    Spent(decode, cpu, b).0
  }

  // ----- The generated code, updating the context in place

  method DoOffset(core: Core, n: RegIndex)
    requires core.Valid()
    modifies core.r
    ensures core.State() == OffsetOf(old(core.State()), n)
  {
    hide Times, Fits;
    core.SetR(0, core.r[n]);
    core.SetR(0, Times(4, core.r[0]));
  }

  method DoShll(core: Core, n: RegIndex)
    requires core.Valid()
    modifies core.r, core`sr
    ensures core.State() == Shll(old(core.State()), n)
  {
    hide Times, Fits;
    var old_ := core.r[n];
    core.SetT(old_ / 0x8000_0000 % 2 == 1);
    core.SetR(n, Times(2, old_));
  }

  method DoNextBit(core: Core, n: RegIndex)
    requires core.Valid()
    modifies core.r, core`sr
    ensures core.State() == NextBit(old(core.State()), n)
  {
    hide Times, And, Fits;
    DoShll(core, n);
    core.SetR(0, core.r[n]);
    core.SetT(And(core.r[0], core.r[6]) == 0);
  }

  method DoMask(core: Core)
    requires core.Valid()
    modifies core.r
    ensures core.State() == var cpu := old(core.State()); WithReg(cpu, 6, Plus(cpu.r[5] / 4, 0xFFFF_FFFF))
  {
    hide Plus, Fits;
    core.SetR(6, core.r[5]);
    core.SetR(6, core.r[6] / 4);
    core.SetR(6, Plus(core.r[6], 0xFFFF_FFFF));
  }

  method DoLiteral(core: Core, storage: Word, baked: Word) returns (v: Word)
    requires core.Valid()
    ensures v == LoadLiteral(core.decode, core.State().mem, storage, baked)
  {
    var p := core.decode(storage);
    if p / PAGE_SIZE in core.dirty || (p + 3) / PAGE_SIZE in core.dirty {
      v := core.Rd32(storage);
    } else {
      v := baked;
    }
  }

  method DoStore(core: Core, a: Word, v: Word)
    requires core.Valid()
    modifies core.ram, core`dirty
    ensures core.State() == Store(core.decode, old(core.State()), a, v)
  {
    core.Wr32(a, v);
  }

  /** The fill and stuck-high blocks. */
  method DoFillBlock(core: Core, b: Block) returns (exit: Exit)
    requires core.Valid() && b in {B80, B8C, B9A, B9E, BA8, BB0}
    modifies core, core.r, core.ram
    ensures (core.State(), exit) == RunBlock(core.decode, old(core.State()), b)
  {
    hide Plus, Times, LoadLiteral, OffsetOf, NextBit, Store, Read32, Fits;
    match b
    case B80 =>
      DoMask(core);
      var v := DoLiteral(core, PATTERN_AT, PATTERN);
      core.SetR(9, v);
      v := DoLiteral(core, ANTIPATTERN_AT, ANTIPATTERN);
      core.SetR(10, v);
      core.SetR(7, 1);
      exit := Goto(B8C);
    case B8C =>
      DoOffset(core, 7);
      DoStore(core, Plus(core.r[4], core.r[0]), core.r[9]);
      DoNextBit(core, 7);
      exit := Goto(if !core.sr.t then B8C else B9A);
    case B9A =>
      DoStore(core, core.r[4], core.r[10]);
      core.SetR(7, 1);
      exit := Goto(B9E);
    case B9E =>
      DoOffset(core, 7);
      var v := core.Rd32(Plus(core.r[4], core.r[0]));
      core.SetR(1, v);
      core.SetT(core.r[1] == core.r[9]);
      exit := Goto(if !core.sr.t then BEC else BA8);
    case BA8 =>
      DoNextBit(core, 7);
      exit := Goto(if !core.sr.t then B9E else BB0);
    case BB0 =>
      DoStore(core, core.r[4], core.r[9]);
      core.SetR(8, 1);
      exit := Goto(BB4);
  }

  /** The nested stuck-low and shorted-line loops, and the three exits. */
  method DoScanBlock(core: Core, b: Block) returns (exit: Exit)
    requires core.Valid() && b !in {B80, B8C, B9A, B9E, BA8, BB0}
    modifies core, core.r, core.ram
    ensures (core.State(), exit) == RunBlock(core.decode, old(core.State()), b)
  {
    hide Plus, Times, LoadLiteral, OffsetOf, NextBit, Store, Read32, Fits;
    match b
    case BB4 =>
      DoOffset(core, 8);
      DoStore(core, Plus(core.r[4], core.r[0]), core.r[10]);
      var v := core.Rd32(core.r[4]);
      core.SetR(1, v);
      core.SetT(core.r[1] == core.r[9]);
      exit := Goto(if !core.sr.t then BF6 else BC0);
    case BC0 =>
      core.SetR(7, 1);
      exit := Goto(BC2);
    case BC2 =>
      DoOffset(core, 7);
      var v := core.Rd32(Plus(core.r[4], core.r[0]));
      core.SetR(1, v);
      core.SetT(core.r[1] == core.r[9]);
      exit := Goto(if core.sr.t then BD0 else BCC);
    case BCC =>
      core.SetT(core.r[7] == core.r[8]);
      exit := Goto(if !core.sr.t then BF6 else BD0);
    case BD0 =>
      DoNextBit(core, 7);
      exit := Goto(if !core.sr.t then BC2 else BD8);
    case BD8 =>
      DoOffset(core, 8);
      DoStore(core, Plus(core.r[4], core.r[0]), core.r[9]);
      DoNextBit(core, 8);
      exit := Goto(if !core.sr.t then BB4 else BE6);
    case BE6 =>
      core.SetR(0, 0);
      exit := Leave;
    case BEC =>
      DoFailAddress(core, 7);
      exit := Leave;
    case BF6 =>
      DoFailAddress(core, 8);
      exit := Leave;
  }

  method DoFailAddress(core: Core, n: RegIndex)
    requires core.Valid() && n in {7, 8}
    modifies core.r
    ensures core.State() == var cpu := old(core.State()); WithReg(cpu, 0, Plus(Times(4, cpu.r[n]), cpu.r[4]))
  {
    hide Plus, Times, Fits;
    core.SetR(0, core.r[n]);
    core.SetR(0, Times(4, core.r[0]));
    core.SetR(0, Plus(core.r[0], core.r[4]));
  }

  /** The switch at the head of the generated function; any other PC means the first label. */
  function EntryOf(pc: Word): (b: Block)
    ensures Label(b) == pc || b == B80
  {
    match pc
    case 0x8C01_008C => B8C case 0x8C01_009A => B9A case 0x8C01_009E => B9E case 0x8C01_00A8 => BA8
    case 0x8C01_00B0 => BB0 case 0x8C01_00B4 => BB4 case 0x8C01_00C0 => BC0 case 0x8C01_00C2 => BC2
    case 0x8C01_00CC => BCC case 0x8C01_00D0 => BD0 case 0x8C01_00D8 => BD8 case 0x8C01_00E6 => BE6
    case 0x8C01_00EC => BEC case 0x8C01_00F6 => BF6
    case _ => B80
  }

  /** Each label of the switch leads to its own block. */
  lemma EntryOfLabel(b: Block)
    ensures EntryOf(Label(b)) == b
  {
  }

  lemma OneLabelEach(b: Block, c: Block)
    requires Label(b) == Label(c)
    ensures b == c
  {
    EntryOfLabel(b);
    EntryOfLabel(c);
  }

  /** The generated function on the runtime: dispatch on the PC, then follow the gotos, each block
      publishing its label and ticking first. A disturbed run may go round forever, so it stops after
      `budget` blocks; an undisturbed one with budget enough returns with the computed state. */
  method RunGenerated(rt: Runtime, budget: nat) returns (finished: bool)
    requires rt.Valid()
    modifies rt, rt.core, rt.core.r, rt.core.ram
    ensures rt.Valid() && rt.disturbed >= old(rt.disturbed)
    ensures rt.disturbed == old(rt.disturbed) ==>
              var decode, cpu, b := rt.core.decode, old(rt.core.State()), EntryOf(old(rt.pc));
              && (forall t :: Label(t) == old(rt.pc) ==> b == t)
              && (finished <==> budget >= Spent(decode, cpu, b).1)
              && (finished ==> rt.core.State() == Recompiled(decode, cpu, b) && rt.pc == cpu.pr)
              && (finished ==> rt.Charged() == old(rt.Charged()) + RecompiledCycles(decode, cpu, b))
  {
    hide RunBlock, ShiftsLeft, OuterBits, InnerBits, Fits, Cost, Label, EntryOf;
    ghost var start := rt.core.State();
    ghost var entry := EntryOf(rt.pc);
    forall t | Label(t) == rt.pc
      ensures entry == t
    {
      EntryOfLabel(t);
    }
    var exit := Goto(EntryOf(rt.pc));
    var left := budget;
    while exit.Goto? && left > 0
      invariant rt.Valid() && rt.disturbed >= old(rt.disturbed)
      invariant 0 <= left <= budget
      invariant rt.disturbed == old(rt.disturbed) ==>
                  Recompiled(rt.core.decode, start, entry)
                  == if exit.Goto? then Recompiled(rt.core.decode, rt.core.State(), exit.block) else rt.core.State()
      invariant rt.disturbed == old(rt.disturbed) ==>
                  var rest := if exit.Goto? then Spent(rt.core.decode, rt.core.State(), exit.block) else (0, 0);
                  Spent(rt.core.decode, start, entry) == (rt.Charged() - old(rt.Charged()) + rest.0, budget - left + rest.1)
      decreases left
    {
      var b := exit.block;
      rt.pc := Label(b);
      var redirect := rt.TickFast(Cost(b));
      if redirect {
        return false;
      }
      if b in {B80, B8C, B9A, B9E, BA8, BB0} {
        exit := DoFillBlock(rt.core, b);
      } else {
        exit := DoScanBlock(rt.core, b);
      }
      left := left - 1;
    }
    if exit.Goto? {
      return false;
    }
    rt.pc := rt.core.pr;
    return true;
  }
}

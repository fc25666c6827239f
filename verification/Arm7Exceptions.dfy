/** Interrupts are transparent: however deeply handlers nest, the interrupted program gets its
    registers, status and PC back. */
module Arm7Exceptions {
  import opened Options
  import opened Words
  import opened Arm7Isa
  import opened Arm7Step
  import opened Arm7Invariants
  import opened Arm7Isolation

  /** SUBS PC,LR,#4, the architectural return from FIQ and IRQ. */
  const RETURN: Word := 0xE25E_F004

  // ----- Histories

  /** A well-nested history: stretches of steps of the core, changes of the two interrupt lines from
      outside, and interrupts with the history of their handler. */
  datatype Run =
    | Done
    | Work(n: nat, rest: Run)
    | Lines(irq: bool, fiq: bool, rest: Run)
    | Interrupt(body: Run, rest: Run)

  function WithLines(m: Machine, irq: bool, fiq: bool): Machine { m.(irqLine := irq, fiqLine := fiq) }

  /** The machine after an interrupt taken at m whose handler history is `body`. */
  function After(m: Machine, body: Run): Machine
    decreases body, 1
  {
    StepOnce(Final(StepOnce(m).m, body)).m
  }

  function Final(m: Machine, run: Run): Machine
    decreases run, 0
  {
    match run
    case Done => m
    case Work(n, rest) => Final(RunSteps(m, n), rest)
    case Lines(irq, fiq, rest) => Final(WithLines(m, irq, fiq), rest)
    case Interrupt(body, rest) => Final(After(m, body), rest)
  }

  // ----- What handlers have to do, and what they need not

  /** From m the next n steps are instructions in mode h: no exception is taken, and none is LDM ^. */
  ghost predicate Undisturbed(m: Machine, h: nat, n: nat)
    decreases n
  {
    n == 0 || (Mode(m) == h && !m.halted && !TakesFiq(m) && !TakesIrq(m) && PlainNext(m) && Undisturbed(StepOnce(m).m, h, n - 1))
  }

  ghost predicate PlainNext(m: Machine) {
    var op := Bus32(m.bus, AlignTo(m.pc, 4));
    op.Some? ==> !LoadsUserBank(op.value)
  }

  /** Back in mode h, the interrupted modes have the registers that h does not see, and their SPSRs. */
  ghost predicate KeepsBanked(m: Machine, to: Machine, h: nat, stack: set<nat>) {
    && Mode(to) == h
    && (forall s: nat, i: Reg | s in stack && !Visible(h, Index(s, i)) :: View(to.file, s, i) == View(m.file, s, i))
    && (forall s: nat | s in stack && HasSpsr(s) :: SpsrOf(to.spsr, s) == SpsrOf(m.spsr, s))
  }

  /** Register i of mode h is also a register of an interrupted mode. */
  ghost predicate SharedWith(h: nat, stack: set<nat>, i: Reg) {
    exists s: nat | s in stack :: Visible(s, Index(h, i))
  }

  /** What a handler owes when it is done, and only then: the registers it shares with an interrupted
      mode, its LR and its SPSR are what they were at its entry. */
  ghost predicate HandsBack(m: Machine, to: Machine, h: nat, stack: set<nat>)
    requires HasSpsr(h)
  {
    && (forall i: Reg :: i == 14 || SharedWith(h, stack, i) ==> View(to.file, h, i) == View(m.file, h, i))
    && SpsrOf(to.spsr, h) == SpsrOf(m.spsr, h)
  }

  /** The next step fetches the return instruction and is not itself interrupted. */
  ghost predicate ReadyToReturn(m: Machine) {
    !m.halted && !TakesFiq(m) && !TakesIrq(m) && !m.cpsr.t && Bus32(m.bus, AlignTo(m.pc, 4)) == Some(RETURN)
  }

  function HandlerMode(m: Machine): Bits5 { if TakesFiq(m) then FIQ else IRQ }

  /** An interrupt is due at m, its handler mode is not among the interrupted ones, and the handler's
      history is legal, hands back what it owes, and ends at the return instruction. */
  ghost predicate LegalInterrupt(m: Machine, body: Run, stack: set<nat>)
    decreases body, 1
  {
    var e, h := StepOnce(m).m, HandlerMode(m);
    && !m.halted && (TakesFiq(m) || TakesIrq(m)) && h !in stack && Mode(m) in stack
    && Legal(e, body, h, stack)
    && HandsBack(e, Final(e, body), h, stack) && ReadyToReturn(Final(e, body))
  }

  /** Inside handler mode h a stretch of instructions owes nothing but to end in that mode; only one
      that leaves the mode in between, or loads the User bank, has to put back what it reached.
      Nested interrupts are legal in turn. */
  ghost predicate Legal(m: Machine, run: Run, h: nat, stack: set<nat>)
    requires HasSpsr(h)
    decreases run, 0
  {
    match run
    case Done => true
    case Work(n, rest) =>
      var to := RunSteps(m, n);
      && Mode(to) == h && (Undisturbed(m, h, n) || KeepsBanked(m, to, h, stack))
      && Legal(to, rest, h, stack)
    case Lines(irq, fiq, rest) => Legal(WithLines(m, irq, fiq), rest, h, stack)
    case Interrupt(body, rest) => LegalInterrupt(m, body, stack + {h}) && Legal(After(m, body), rest, h, stack)
  }

  // ----- The return instruction

  lemma DecodeReturn()
    ensures Decode(RETURN) == DATA && RegField(RETURN, 21) == 2 && Flag(RETURN, 20) && Flag(RETURN, 25)
    ensures RegField(RETURN, 12) == 15 && RegField(RETURN, 16) == 14 && RegField(RETURN, 8) == 0 && RETURN % 0x100 == 4
    ensures RETURN / 0x1000_0000 == 0xE
  {
    Powers();
    hide Pow2;
  }

  lemma Powers()
    ensures Pow2(2) == 4 && Pow2(3) == 8 && Pow2(4) == 0x10 && Pow2(5) == 0x20 && Pow2(6) == 0x40 && Pow2(8) == 0x100
    ensures Pow2(7) == 0x80 && Pow2(12) == 0x1000 && Pow2(16) == 0x1_0000 && Pow2(20) == 0x10_0000 && Pow2(21) == 0x20_0000
    ensures Pow2(22) == 0x40_0000 && Pow2(23) == 0x80_0000 && Pow2(25) == 0x200_0000 && Pow2(26) == 0x400_0000
  {
    assert Pow2(8) == 0x100;
    assert Pow2(16) == 0x1_0000;
    assert Pow2(22) == 0x40_0000;
  }

  lemma ReturnStep(m: Machine)
    requires ReadyToReturn(m) && HasSpsr(Mode(m)) && ValidMode(SpsrOf(m.spsr, Mode(m)).mode)
    ensures StepOnce(m).m == m.(cpsr := SpsrOf(m.spsr, Mode(m)), pc := AlignTo(Minus(View(m.file, Mode(m), 14), 4), 4))
  {
    hide Decode, RegField, Flag, Field, Pow2, Index, Minus, AlignTo;
    DecodeReturn();
    var pc := AlignTo(m.pc, 4);
    assert StepOnce(m) == Execute(m, pc, RETURN);
    assert Execute(m, pc, RETURN) == DataProcessing(m, pc, RETURN);
    AllFields(m, SpsrOf(m.spsr, Mode(m)));
  }

  lemma AllFields(m: Machine, p: Psr)
    ensures ApplyPsrFields(m.cpsr, p, 0xF) == p
    ensures forall q: Psr :: ApplyPsrFields(q, p, 0xF) == p
  {
  }

  // ----- Transparency

  lemma {:induction false} WorkConfined(m: Machine, h: nat, n: nat)
    requires Undisturbed(m, h, n)
    ensures Confined(m, RunSteps(m, n), h, false)
    decreases n
  {
    hide StepOnce, Visible, SpsrOf, LoadsUserBank, Bus32, AlignTo;
    if n > 0 {
      var s := StepOnce(m);
      StepConfined(m);
      if s.status == Executed {
        WorkConfined(s.m, h, n - 1);
        ConfinedChain(m, s.m, RunSteps(s.m, n - 1), h, false);
      }
    }
  }

  /** The banks protect the interrupted modes from whatever instructions do in mode h. */
  lemma InstructionsKeep(m: Machine, n: nat, h: nat, stack: set<nat>)
    requires h !in stack && Undisturbed(m, h, n) && Mode(RunSteps(m, n)) == h
    ensures KeepsBanked(m, RunSteps(m, n), h, stack)
  {
    hide RunSteps, Undisturbed, SpsrOf, Index, Visible;
    WorkConfined(m, h, n);
  }

  lemma KeepsChain(a: Machine, b: Machine, c: Machine, h: nat, stack: set<nat>)
    requires KeepsBanked(a, b, h, stack) && KeepsBanked(b, c, h, stack)
    ensures KeepsBanked(a, c, h, stack)
  {
    hide View, SpsrOf, Index, Visible;
  }

  /** What the interrupted program and everything below it on the stack see afterwards. */
  ghost predicate Restored(m: Machine, out: Machine, stack: set<nat>) {
    && out.cpsr == m.cpsr && out.pc == AlignTo(m.pc, 4)
    && (forall s: nat, i: Reg | s in stack :: View(out.file, s, i) == View(m.file, s, i))
    && (forall s: nat | s in stack && HasSpsr(s) :: SpsrOf(out.spsr, s) == SpsrOf(m.spsr, s))
  }

  /** A legal history keeps, as a whole, the banked state of the interrupted modes. */
  lemma {:induction false} BodyKeeps(m: Machine, run: Run, h: nat, stack: set<nat>)
    requires HasSpsr(h) && Mode(m) == h && ValidMode(h) && h !in stack && Legal(m, run, h, stack)
    ensures KeepsBanked(m, Final(m, run), h, stack)
    decreases run, 0
  {
    hide StepOnce, KeepsBanked, LegalInterrupt, RunSteps, Undisturbed;
    match run
    case Done => KeepsSelf(m, m, h, stack);
    case Work(n, rest) =>
      var to := RunSteps(m, n);
      if Undisturbed(m, h, n) {
        InstructionsKeep(m, n, h, stack);
      }
      BodyKeeps(to, rest, h, stack);
      KeepsChain(m, to, Final(to, rest), h, stack);
    case Lines(irq, fiq, rest) =>
      var to := WithLines(m, irq, fiq);
      KeepsSelf(m, to, h, stack);
      BodyKeeps(to, rest, h, stack);
      KeepsChain(m, to, Final(to, rest), h, stack);
    case Interrupt(body, rest) =>
      Transparent(m, body, stack + {h});
      RestoredKeeps(m, After(m, body), h, stack);
      BodyKeeps(After(m, body), rest, h, stack);
      KeepsChain(m, After(m, body), Final(After(m, body), rest), h, stack);
  }

  lemma KeepsSelf(m: Machine, to: Machine, h: nat, stack: set<nat>)
    requires Mode(m) == h && to == m.(irqLine := to.irqLine, fiqLine := to.fiqLine)
    ensures KeepsBanked(m, to, h, stack) && Mode(to) == h
  {
  }

  lemma RestoredKeeps(m: Machine, out: Machine, h: nat, stack: set<nat>)
    requires Mode(m) == h && Restored(m, out, stack + {h})
    ensures KeepsBanked(m, out, h, stack) && Mode(out) == h
  {
    hide View, SpsrOf, Index, Visible;
  }

  /** Banked state kept by itself and shared state handed back: the interrupted modes have it all. */
  lemma BanksAndDebt(m: Machine, to: Machine, h: nat, stack: set<nat>)
    requires HasSpsr(h) && KeepsBanked(m, to, h, stack) && HandsBack(m, to, h, stack)
    ensures forall s: nat, i: Reg | s in stack :: View(to.file, s, i) == View(m.file, s, i)
  {
    hide SpsrOf, Index, Visible;
    forall s: nat, i: Reg | s in stack
      ensures View(to.file, s, i) == View(m.file, s, i)
    {
      if Visible(h, Index(s, i)) {
        SeenBySelf(s, i);
        var j := SeenAs(h, Index(s, i));
        assert SharedWith(h, stack, j);
      }
    }
  }

  lemma SeenBySelf(s: nat, i: Reg)
    ensures Visible(s, Index(s, i))
  {
  }

  lemma SeenAs(h: nat, k: nat) returns (j: Reg)
    requires Visible(h, k)
    ensures Index(h, j) == k
  {
    j :| Index(h, j) == k;
  }

  /** Entry, followed by a legal handler that pays its debt, followed by the return. */
  lemma {:induction false} Transparent(m: Machine, body: Run, stack: set<nat>)
    requires ValidMode(Mode(m)) && LegalInterrupt(m, body, stack)
    ensures Restored(m, After(m, body), stack)
    decreases body, 1
  {
    hide StepOnce, KeepsBanked, HandsBack, Legal, ReadyToReturn, Restored;
    EntryMode(m);
    BodyKeeps(StepOnce(m).m, body, HandlerMode(m), stack);
    ReturnRestores(m, Final(StepOnce(m).m, body), stack);
  }

  lemma EntryMode(m: Machine)
    requires !m.halted && (TakesFiq(m) || TakesIrq(m))
    ensures Mode(StepOnce(m).m) == HandlerMode(m)
  {
    EntryConfined(m);
  }

  lemma ReturnRestores(m: Machine, b: Machine, stack: set<nat>)
    requires ValidMode(Mode(m)) && !m.halted && (TakesFiq(m) || TakesIrq(m))
    requires HandlerMode(m) !in stack && Mode(m) in stack
    requires KeepsBanked(StepOnce(m).m, b, HandlerMode(m), stack)
    requires HandsBack(StepOnce(m).m, b, HandlerMode(m), stack) && ReadyToReturn(b)
    ensures Restored(m, StepOnce(b).m, stack)
  {
    hide StepOnce, ReadyToReturn, Index, AlignTo, View, Visible, SharedWith;
    var k := HandlerMode(m);
    var e := StepOnce(m).m;
    EntryState(m, stack);
    BanksAndDebt(e, b, k, stack);
    assert SpsrOf(b.spsr, k) == m.cpsr;
    ReturnStep(b);
    ResumeAddress(m);
  }

  /** The entry step saves the resume address and status and touches nothing the stack sees. */
  lemma EntryState(m: Machine, stack: set<nat>)
    requires !m.halted && (TakesFiq(m) || TakesIrq(m)) && HandlerMode(m) !in stack
    ensures var e, k := StepOnce(m).m, HandlerMode(m);
            && SpsrOf(e.spsr, k) == m.cpsr
            && View(e.file, k, 14) == Plus(AlignTo(m.pc, if m.cpsr.t then 2 else 4), 4)
            && (forall s: nat, i: Reg | s in stack :: View(e.file, s, i) == View(m.file, s, i))
            && (forall s: nat | s in stack && HasSpsr(s) :: SpsrOf(e.spsr, s) == SpsrOf(m.spsr, s))
  {
    hide AlignTo;
  }

  lemma ResumeAddress(m: Machine)
    ensures AlignTo(Minus(Plus(AlignTo(m.pc, if m.cpsr.t then 2 else 4), 4), 4), 4) == AlignTo(m.pc, 4)
  {
    var r := AlignTo(m.pc, if m.cpsr.t then 2 else 4);
    BackAndForth(r);
    AlignTwice(m.pc);
    hide Plus, Minus;
  }

  lemma BackAndForth(r: Word)
    ensures Minus(Plus(r, 4), 4) == r
  {
  }

  lemma AlignTwice(a: Word)
    ensures AlignTo(AlignTo(a, 2), 4) == AlignTo(a, 4) && AlignTo(AlignTo(a, 4), 4) == AlignTo(a, 4)
  {
    var q, low := a / 4, a % 4;
    DivModUnique(a, 2, 2 * q + low / 2, low % 2);
    DivModUnique(AlignTo(a, 2), 4, q, low - low % 2);
    DivModUnique(AlignTo(a, 4), 4, q, 0);
  }

  /** In ARM state the interrupted program resumes with exactly its r0-r14, status and PC, after
      any nesting of FIQ and IRQ handlers above it. */
  lemma InterruptsAreTransparent(m: Machine, body: Run)
    requires Sound(m) && !m.cpsr.t && LegalInterrupt(m, body, {Mode(m)})
    ensures var out := After(m, body);
            && out.cpsr == m.cpsr && out.pc == m.pc
            && forall i: Reg :: Live(out, i) == Live(m, i)
  {
    hide LegalInterrupt, View, StepOnce, Final;
    Transparent(m, body, {Mode(m)});
    AlignedAlready(m.pc);
  }

  lemma AlignedAlready(a: Word)
    ensures AlignTo(a, 4) == a <==> a % 4 == 0
  {
  }

  /** For a program interrupted in Thumb state the return clears PC bit 1: the PC comes back
      exactly when it was word aligned. */
  lemma ReturnAddressExact(m: Machine, body: Run)
    requires ValidMode(Mode(m)) && LegalInterrupt(m, body, {Mode(m)})
    ensures After(m, body).pc == m.pc <==> m.pc % 4 == 0
  {
    hide LegalInterrupt, View, StepOnce, Final;
    Transparent(m, body, {Mode(m)});
    AlignedAlready(m.pc);
  }

  /** What an entry leaves for the handler's first instruction. */
  lemma EntryLeaves(m: Machine)
    requires !m.halted && (TakesFiq(m) || TakesIrq(m))
    ensures var e := StepOnce(m).m;
            && e.bus == m.bus && e.irqLine == m.irqLine && e.fiqLine == m.fiqLine && !e.halted
            && e.pc == (if TakesFiq(m) then 0x1C else 0x18) && !e.cpsr.t && e.cpsr.i && (e.cpsr.f <==> m.cpsr.f || TakesFiq(m))
  {
    hide AlignTo, Index;
  }

  /** Such histories exist: a vector that holds just the return instruction is a legal handler. */
  lemma ShortestHandler(m: Machine, stack: set<nat>)
    requires !m.halted && (TakesFiq(m) || TakesIrq(m)) && Mode(m) in stack && HandlerMode(m) !in stack
    requires Bus32(m.bus, if TakesFiq(m) then 0x1C else 0x18) == Some(RETURN)
    ensures LegalInterrupt(m, Done, stack)
  {
    hide AlignTo, Bus32, Index, StepOnce;
    EntryLeaves(m);
    AlignedAlready(0x1C);
    AlignedAlready(0x18);
  }

  /** A handler of this kind, taken and returned from, leaves bus and lines as they are. */
  lemma ShortestAfter(m: Machine, stack: set<nat>)
    requires ValidMode(Mode(m)) && LegalInterrupt(m, Done, stack)
    ensures var out := After(m, Done);
            out.bus == m.bus && out.irqLine == m.irqLine && out.fiqLine == m.fiqLine && !out.halted
  {
    hide AlignTo, Bus32, Index, StepOnce;
    EntryLeaves(m);
    EntryState(m, stack);
    EntryMode(m);
    ReturnStep(StepOnce(m).m);
  }

  /** An interrupted Thumb program that does not get its PC back: address 2 becomes 0. */
  lemma ThumbLosesBitOne() returns (m: Machine)
    ensures m.cpsr.t && m.pc == 2 && ValidMode(Mode(m)) && LegalInterrupt(m, Done, {Mode(m)})
    ensures After(m, Done).pc == 0
  {
    hide LegalInterrupt, After, StepOnce, Plus;
    var p := Psr(false, false, false, false, 0, 0, 0, false, false, true, USR);
    var bus: Bus := map[0x18 := 0x04, 0x19 := 0xF0, 0x1A := 0x5E, 0x1B := 0xE2];
    m := Machine(seq(30, _ => 0), 2, p, Spsrs(p, p, p, p, p), bus, true, false, false);
    ReturnAtVector(bus);
    ShortestHandler(m, {Mode(m)});
    Transparent(m, Done, {Mode(m)});
  }

  lemma ReturnAtVector(bus: Bus)
    requires bus == map[0x18 := 0x04, 0x19 := 0xF0, 0x1A := 0x5E, 0x1B := 0xE2]
    ensures Bus32(bus, 0x18) == Some(RETURN)
  {
    assert Plus(0x18, 1) == 0x19 && Plus(0x18, 2) == 0x1A && Plus(0x18, 3) == 0x1B;
  }

  /** A FIQ inside an IRQ handler, both handlers just returning, with the lines dropped in time. */
  lemma NestedHandlers(m: Machine)
    requires ValidMode(Mode(m)) && !HasSpsr(Mode(m)) && !m.halted && m.irqLine && !m.fiqLine && !m.cpsr.i && !m.cpsr.f
    requires Bus32(m.bus, 0x18) == Some(RETURN) && Bus32(m.bus, 0x1C) == Some(RETURN)
    ensures LegalInterrupt(m, Lines(false, true, Interrupt(Done, Lines(false, false, Done))), {Mode(m)})
  {
    hide AlignTo, Bus32, Index, StepOnce, Visible, SharedWith, SpsrOf, LegalInterrupt, After;
    var stack := {Mode(m)};
    var e := StepOnce(m).m;
    EntryLeaves(m);
    EntryMode(m);
    AlignedAlready(0x18);
    var e' := WithLines(e, false, true);
    ShortestHandler(e', stack + {IRQ});
    Transparent(e', Done, stack + {IRQ});
    ShortestAfter(e', stack + {IRQ});
    NestedLegal(m, stack);
  }

  lemma NestedLegal(m: Machine, stack: set<nat>)
    requires TakesIrq(m) && !m.halted && IRQ !in stack && Mode(m) in stack
    requires var e := StepOnce(m).m; var e' := WithLines(e, false, true); var out := After(e', Done);
             && Mode(e) == IRQ && e.pc == 0x18 && !e.cpsr.t && LegalInterrupt(e', Done, stack + {IRQ})
             && Restored(e', out, stack + {IRQ}) && !out.halted
             && Bus32(out.bus, AlignTo(0x18, 4)) == Some(RETURN)
    ensures LegalInterrupt(m, Lines(false, true, Interrupt(Done, Lines(false, false, Done))), stack)
  {
    hide Bus32, Index, StepOnce, Visible, SharedWith, SpsrOf, View, After;
    AlignedAlready(0x18);
    var e := StepOnce(m).m;
    var e' := WithLines(e, false, true);
    var out := After(e', Done);
    var last: Run := Done;
    var tail := Lines(false, false, last);
    assert Final(e, Lines(false, true, Interrupt(Done, tail))) == WithLines(out, false, false);
    assert Legal(e, Lines(false, true, Interrupt(Done, tail)), IRQ, stack);
  }

  // ----- Histories are runs

  datatype Input = Steps(n: nat) | SetLines(irq: bool, fiq: bool)

  /** arm7_run in between changes of the interrupt lines. */
  function Play(m: Machine, inputs: seq<Input>): Machine
    decreases |inputs|
  {
    if inputs == [] then m else Play(Feed(m, inputs[0]), inputs[1..])
  }

  function Feed(m: Machine, input: Input): Machine {
    match input
    case Steps(n) => RunSteps(m, n)
    case SetLines(irq, fiq) => WithLines(m, irq, fiq)
  }

  function Inputs(run: Run): seq<Input> {
    match run
    case Done => []
    case Work(n, rest) => [Steps(n)] + Inputs(rest)
    case Lines(irq, fiq, rest) => [SetLines(irq, fiq)] + Inputs(rest)
    case Interrupt(body, rest) => [Steps(1)] + (Inputs(body) + ([Steps(1)] + Inputs(rest)))
  }

  lemma {:induction false} PlayConcat(m: Machine, a: seq<Input>, b: seq<Input>)
    ensures Play(m, a + b) == Play(Play(m, a), b)
    decreases |a|
  {
    hide Feed;
    if a == [] {
      assert a + b == b;
    } else {
      assert (a + b)[1..] == a[1..] + b;
      PlayConcat(Feed(m, a[0]), a[1..], b);
    }
  }

  lemma PlayFirst(m: Machine, input: Input, rest: seq<Input>)
    ensures Play(m, [input] + rest) == Play(Feed(m, input), rest)
  {
    hide Feed;
    assert ([input] + rest)[1..] == rest;
  }

  lemma OneStep(m: Machine)
    ensures RunSteps(m, 1) == StepOnce(m).m
  {
    hide EnterException, Execute, Bus32, ConditionPassed, AlignTo;
    assert StepOnce(m).status == Executed ==> RunSteps(StepOnce(m).m, 0) == StepOnce(m).m;
  }

  /** Every history is what the core does: runs of arm7_step, with the line changes in between. */
  lemma {:induction false} HistoryPlays(m: Machine, run: Run)
    ensures Play(m, Inputs(run)) == Final(m, run)
    decreases run
  {
    hide RunSteps, StepOnce, Play;
    match run
    case Done => PlayNothing(m);
    case Work(n, rest) =>
      PlayFirst(m, Steps(n), Inputs(rest));
      HistoryPlays(RunSteps(m, n), rest);
    case Lines(irq, fiq, rest) =>
      PlayFirst(m, SetLines(irq, fiq), Inputs(rest));
      HistoryPlays(WithLines(m, irq, fiq), rest);
    case Interrupt(body, rest) =>
      var e := StepOnce(m).m;
      OneStep(m);
      PlayFirst(m, Steps(1), Inputs(body) + ([Steps(1)] + Inputs(rest)));
      PlayConcat(e, Inputs(body), [Steps(1)] + Inputs(rest));
      HistoryPlays(e, body);
      OneStep(Final(e, body));
      PlayFirst(Final(e, body), Steps(1), Inputs(rest));
      HistoryPlays(After(m, body), rest);
  }

  lemma PlayNothing(m: Machine)
    ensures Play(m, []) == m
  {
  }

  /** The same for a whole interrupt: entry, handler and return. */
  lemma InterruptPlays(m: Machine, body: Run)
    ensures Play(m, [Steps(1)] + (Inputs(body) + [Steps(1)])) == After(m, body)
  {
    hide RunSteps, StepOnce, Final, Play;
    var e := StepOnce(m).m;
    OneStep(m);
    PlayFirst(m, Steps(1), Inputs(body) + [Steps(1)]);
    PlayConcat(e, Inputs(body), [Steps(1)]);
    HistoryPlays(e, body);
    OneStep(Final(e, body));
    PlayFirst(Final(e, body), Steps(1), []);
    PlayNothing(After(m, body));
    assert [Steps(1)] + [] == [Steps(1)];
  }

  // ----- One run

  predicate LinesKept(run: Run) {
    match run
    case Done => true
    case Work(_, rest) => LinesKept(rest)
    case Lines(_, _, _) => false
    case Interrupt(body, rest) => LinesKept(body) && LinesKept(rest)
  }

  function StepCount(run: Run): nat {
    match run
    case Done => 0
    case Work(n, rest) => n + StepCount(rest)
    case Lines(_, _, rest) => StepCount(rest)
    case Interrupt(body, rest) => 2 + StepCount(body) + StepCount(rest)
  }

  lemma {:induction false} RunsCompose(m: Machine, a: nat, b: nat)
    requires Sound(m) || m.halted
    ensures RunSteps(m, a + b) == RunSteps(RunSteps(m, a), b)
    ensures Sound(RunSteps(m, a)) || RunSteps(m, a).halted
    decreases a
  {
    hide StepOnce, Sound;
    if a > 0 && !m.halted {
      StepSound(m);
      if StepOnce(m).status == Executed {
        RunsCompose(StepOnce(m).m, a - 1, b);
      }
    }
  }

  /** Without line changes a history is one single run. */
  lemma {:induction false} HistoryIsRun(m: Machine, run: Run)
    requires LinesKept(run) && (Sound(m) || m.halted)
    ensures Final(m, run) == RunSteps(m, StepCount(run))
    ensures Sound(Final(m, run)) || Final(m, run).halted
    decreases run, 0
  {
    hide RunSteps, StepOnce, Sound;
    match run
    case Done => NoSteps(m);
    case Work(n, rest) =>
      RunsCompose(m, n, StepCount(rest));
      HistoryIsRun(RunSteps(m, n), rest);
    case Interrupt(body, rest) =>
      InterruptIsRun(m, body);
      RunsCompose(m, 2 + StepCount(body), StepCount(rest));
      HistoryIsRun(After(m, body), rest);
  }

  lemma NoSteps(m: Machine)
    ensures RunSteps(m, 0) == m
  {
  }

  lemma {:induction false} InterruptIsRun(m: Machine, body: Run)
    requires LinesKept(body) && (Sound(m) || m.halted)
    ensures After(m, body) == RunSteps(m, 2 + StepCount(body))
    decreases body, 1
  {
    hide RunSteps, StepOnce, Sound, Final;
    var e := StepOnce(m).m;
    OneStep(m);
    RunsCompose(m, 1, StepCount(body) + 1);
    HistoryIsRun(e, body);
    RunsCompose(e, StepCount(body), 1);
    OneStep(Final(e, body));
  }

  /** So a transparent interrupt is a run of the core that ends where it began. */
  lemma TransparentRun(m: Machine, body: Run)
    requires Sound(m) && !m.cpsr.t && LegalInterrupt(m, body, {Mode(m)}) && LinesKept(body)
    ensures var out := RunSteps(m, 2 + StepCount(body));
            && out.cpsr == m.cpsr && out.pc == m.pc
            && forall i: Reg :: Live(out, i) == Live(m, i)
  {
    hide LegalInterrupt, RunSteps, After, Live;
    InterruptsAreTransparent(m, body);
    InterruptIsRun(m, body);
  }
}

/** What executed loads and stores of the ARM7 do: addresses, write-back, and reading back what was
    stored. */
module Arm7Access {
  import opened Options
  import opened Words
  import opened Bits
  import opened Arm7Isa
  import opened Arm7Step
  import opened Arm7Encoding
  import opened Arm7Shifter
  import opened Arm7Data
  import opened Arm7Transfers

  // ----- Encoding

  /** LDR and STR; LDRB and STRB; LDRH and STRH; LDRSB; LDRSH. */
  datatype Size = WORD | BYTE | HALFWORD | SIGNED_BYTE | SIGNED_HALF

  datatype Offset = Fixed(n: nat) | ByRegister(rm: Nibble, kind: nat, amount: nat)

  /** Addressing before or after, up or down, with write-back or not. */
  datatype Transfer = Transfer(cond: Nibble, pre: bool, up: bool, writeback: bool, load: bool, size: Size,
                               rn: Nibble, rd: Nibble, o: Offset)

  predicate Single(t: Transfer) { t.size.WORD? || t.size.BYTE? }

  predicate ProperOffset(o: Offset) { match o case Fixed(n) => n < 0x1000 case ByRegister(_, k, n) => k < 4 && n < 32 }

  /** The half-word forms have eight offset bits and no shift; with R15 the store at a lower address
      with write-back is the encoding of MSR. */
  predicate Proper(t: Transfer) {
    && ProperOffset(t.o)
    && (!Single(t) ==>
          && (match t.o case Fixed(n) => n < 0x100 case ByRegister(_, k, n) => k == 0 && n == 0)
          && !(!t.load && t.pre && !t.up && t.writeback && t.rd == 15))
  }

  function HalfKind(s: Size): nat { if s.HALFWORD? then 1 else if s.SIGNED_BYTE? then 2 else 3 }

  function OffsetBits(t: Transfer): (low: nat)
    requires Proper(t)
    ensures low < 0x1000
  {
    if Single(t) then
      match t.o case Fixed(n) => n case ByRegister(rm, kind, amount) => 0x80 * amount + 0x20 * kind + rm
    else
      0x90 + 0x20 * HalfKind(t.size) + match t.o case Fixed(n) => 0x100 * (n / 0x10) + n % 0x10 case ByRegister(rm, _, _) => rm
  }

  function TransferClass(t: Transfer): nat { if !Single(t) then 0 else if t.o.ByRegister? then 3 else 2 }

  function TransferTop(t: Transfer): nat {
    0x20 * TransferClass(t) + 0x10 * Bit(t.pre) + 8 * Bit(t.up) + 4 * Bit(if Single(t) then t.size.BYTE? else t.o.Fixed?)
    + 2 * Bit(t.writeback) + Bit(t.load)
  }

  function TransferOp(t: Transfer): Word
    requires Proper(t)
  {
    Instruction(t.cond, TransferTop(t), t.rn, t.rd, OffsetBits(t))
  }

  // ----- Decoding

  /** Six flags as the binary digits of a number. */
  lemma SixDigits(t: nat, i: nat, p: nat, u: nat, b: nat, w: nat, l: nat)
    requires t == 0x20 * i + 0x10 * p + 8 * u + 4 * b + 2 * w + l && i < 4 && p < 2 && u < 2 && b < 2 && w < 2 && l < 2
    ensures t / 0x20 == i && t / 0x10 % 2 == p && t / 8 % 2 == u && t / 4 % 2 == b && t / 2 % 2 == w && t % 2 == l
    ensures t < 0x80 && t / 8 % 4 == 2 * p + u && t % 4 == 2 * w + l && t / 0x40 == i / 2 && t / 8 == 4 * i + 2 * p + u && t / 4 == 8 * i + 4 * p + 2 * u + b
  {
    DivModUnique(t, 0x40, i / 2, 0x20 * (i % 2) + 0x10 * p + 8 * u + 4 * b + 2 * w + l);
    DivModUnique(t, 0x20, i, 0x10 * p + 8 * u + 4 * b + 2 * w + l);
    DivModUnique(t, 0x10, 2 * i + p, 8 * u + 4 * b + 2 * w + l);
    DivModUnique(2 * i + p, 2, i, p);
    DivModUnique(t, 8, 4 * i + 2 * p + u, 4 * b + 2 * w + l);
    DivModUnique(4 * i + 2 * p + u, 2, 2 * i + p, u);
    DivModUnique(4 * i + 2 * p + u, 4, i, 2 * p + u);
    DivModUnique(t, 4, 8 * i + 4 * p + 2 * u + b, 2 * w + l);
    DivModUnique(8 * i + 4 * p + 2 * u + b, 2, 4 * i + 2 * p + u, b);
    DivModUnique(t, 2, 16 * i + 8 * p + 4 * u + 2 * b + w, l);
    DivModUnique(16 * i + 8 * p + 4 * u + 2 * b + w, 2, 8 * i + 4 * p + 2 * u + b, w);
  }

  lemma TopFlags(t: Transfer)
    ensures var top, i := TransferTop(t), TransferClass(t);
            && top < 0x80 && top / 0x20 == i && top / 0x40 == i / 2 && top / 0x20 % 2 == i % 2
            && (i == 0 ==> top / 0x20 == 0 && top / 0x40 == 0) && (i > 0 ==> top / 8 >= 8 && top / 4 >= 0x10)
    ensures var top := TransferTop(t);
            && (top / 0x10 % 2 == 1 <==> t.pre) && (top / 8 % 2 == 1 <==> t.up)
            && (top / 4 % 2 == 1 <==> if Single(t) then t.size.BYTE? else t.o.Fixed?)
            && (top / 2 % 2 == 1 <==> t.writeback) && (top % 2 == 1 <==> t.load)
            && (top / 8 % 4 == 2 <==> t.pre && !t.up) && (top % 4 == 2 <==> t.writeback && !t.load)
  {
    SixDigits(TransferTop(t), TransferClass(t), Bit(t.pre), Bit(t.up), Bit(if Single(t) then t.size.BYTE? else t.o.Fixed?),
              Bit(t.writeback), Bit(t.load));
    hide TransferTop;
  }

  /** The fields that all transfers share. */
  ghost predicate SharedFields(t: Transfer, op: Word) {
    && op / 0x1000_0000 == t.cond && RegField(op, 16) == t.rn && RegField(op, 12) == t.rd
    && Flag(op, 24) == t.pre && Flag(op, 23) == t.up && Flag(op, 21) == t.writeback && Flag(op, 20) == t.load
  }

  ghost predicate SingleFields(t: Transfer, op: Word) {
    && Decode(op) == SINGLE && Flag(op, 25) == t.o.ByRegister? && Flag(op, 22) == t.size.BYTE?
    && match t.o
       case Fixed(n) => op % 0x1000 == n
       case ByRegister(rm, kind, amount) => RegField(op, 0) == rm && Field(op, 5, 2) == kind && Field(op, 7, 5) == amount && !Flag(op, 4)
  }

  ghost predicate HalfFields(t: Transfer, op: Word) {
    && Decode(op) == HALF && Field(op, 5, 2) == HalfKind(t.size) && Flag(op, 22) == t.o.Fixed?
    && match t.o
       case Fixed(n) => RegField(op, 8) * 0x10 + RegField(op, 0) == n
       case ByRegister(rm, _, _) => RegField(op, 0) == rm
  }

  lemma TransferDecodes(t: Transfer)
    requires Proper(t)
    ensures var op := TransferOp(t); SharedFields(t, op) && if Single(t) then SingleFields(t, op) else HalfFields(t, op)
  {
    hide Field, Flag, RegField, Instruction, TransferTop, OffsetBits;
    var top, low := TransferTop(t), OffsetBits(t);
    TopFlags(t);
    Registers(t.cond, top, t.rn, t.rd, low);
    Classes(t.cond, top, t.rn, t.rd, low);
    OpcodeBits(t.cond, top, t.rn, t.rd, low);
    ShiftFields(t.cond, top, t.rn, t.rd, low);
    CrossFields(t.cond, top, t.rn, t.rd, low);
    if Single(t) {
      SingleLow(t);
    } else {
      Subclasses(t.cond, top, t.rn, t.rd, low);
      HalfLow(t);
    }
  }

  lemma SingleLow(t: Transfer)
    requires Proper(t) && Single(t)
    ensures var low := OffsetBits(t);
            match t.o
            case Fixed(n) => low == n
            case ByRegister(rm, kind, amount) => low % 0x10 == rm && low / 0x20 % 4 == kind && low / 0x80 == amount && low / 0x10 % 2 == 0
  {
    if t.o.ByRegister? {
      LowParts(Scaled(t.o.rm, t.o.kind, t.o.amount));
    }
  }

  lemma HalfLow(t: Transfer)
    requires Proper(t) && !Single(t)
    ensures var low := OffsetBits(t);
            && low / 0x20 % 4 == HalfKind(t.size) && low / 0x80 % 2 == 1 && low / 0x10 % 2 == 1
            && low / 0x10 % 0x10 == 9 + 2 * HalfKind(t.size) && low != 0 && low / 0x10 % 2 == 1
            && match t.o case Fixed(n) => low / 0x100 * 0x10 + low % 0x10 == n case ByRegister(rm, _, _) => low % 0x10 == rm
  {
    var low, k := OffsetBits(t), HalfKind(t.size);
    var hi := match t.o case Fixed(n) => n / 0x10 case _ => 0;
    var lo := match t.o case Fixed(n) => n % 0x10 case ByRegister(rm, _, _) => rm;
    DivModUnique(low, 0x10, 0x10 * hi + 9 + 2 * k, lo);
    DivModUnique(0x10 * hi + 9 + 2 * k, 0x10, hi, 9 + 2 * k);
    DivModUnique(low, 0x20, 8 * hi + 4 + k, 0x10 + lo);
    DivModUnique(8 * hi + 4 + k, 4, 2 * hi + 1, k);
    DivModUnique(low, 0x80, 2 * hi + 1, 0x10 + 0x20 * k + lo);
    DivModUnique(low, 0x100, hi, 0x90 + 0x20 * k + lo);
  }

  // ----- Addresses

  function OffsetValue(m: Machine, o: Offset): Word
    requires ProperOffset(o)
  {
    match o case Fixed(n) => n case ByRegister(rm, kind, amount) => ShiftValue(Source(m, rm), kind, amount, m.cpsr.c, true).value
  }

  /** Base plus or minus offset. */
  function Moved(m: Machine, t: Transfer): Word
    requires Proper(t)
  {
    var base, offset := Source(m, t.rn) as int, OffsetValue(m, t.o) as int;
    Wrap(if t.up then base + offset else base - offset)
  }

  /** The address that is accessed: the moved base before, the base itself after. */
  function Accessed(m: Machine, t: Transfer): Word
    requires Proper(t)
  {
    if t.pre then Moved(m, t) else Source(m, t.rn)
  }

  predicate Writes(t: Transfer) { !t.pre || t.writeback }

  /** The register file after write-back. */
  function WithBase(m: Machine, file: File, t: Transfer): File
    requires Proper(t)
  {
    if Writes(t) && t.rn != 15 then Update(file, Mode(m), t.rn, Moved(m, t)) else file
  }

  function Next(m: Machine): Word { Plus(AlignTo(m.pc, 4), 4) }

  lemma AlignedDown(a: Word)
    ensures AlignTo(a, 4) % 4 == 0 && AlignTo(a, 4) <= a < AlignTo(a, 4) + 4
  {
  }

  // ----- Execution

  /** What a store leaves in memory: the word at the aligned address, the half-word or the byte. */
  function Put(bus: Bus, size: Size, at: Word, v: Word): Option<Bus> {
    match size
    case WORD => Store32(bus, AlignTo(at, 4), v)
    case BYTE => Store8(bus, at, v)
    case _ => Store16(bus, at, v)
  }

  /** What a load finds: the aligned word rotated so that the addressed byte is lowest, or the half-word
      or byte, zero or sign extended. */
  function Found(bus: Bus, size: Size, at: Word): Option<Word> {
    match size
    case WORD => (match Bus32(bus, AlignTo(at, 4)) case Some(w) => Some(Rotr(w, at % 4 * 8)) case None => None)
    case BYTE => Bus8(bus, at)
    case HALFWORD => Bus16(bus, at)
    case SIGNED_BYTE => (match Bus8(bus, at) case Some(w) => Some(SignExtendByte(w)) case None => None)
    case SIGNED_HALF => (match Bus16(bus, at) case Some(w) => Some(SignExtendHalf(w)) case None => None)
  }

  /** A base other than R15, or no write-back. */
  predicate GoodBase(t: Transfer) { Writes(t) ==> t.rn != 15 }

  /** There are no signed stores. */
  predicate Meaningful(t: Transfer) { t.load || Single(t) || t.size.HALFWORD? }

  /** Memory gets the register, then the base moves on; nothing else changes. */
  ghost predicate Stores(m: Machine, t: Transfer, out: Step)
    requires Proper(t)
  {
    match Put(m.bus, t.size, Accessed(m, t), Source(m, t.rd))
    case None => out == Stop(m, Fault)
    case Some(bus) =>
      if GoodBase(t) then out == Step(m.(bus := bus, pc := Next(m), file := WithBase(m, m.file, t)), Executed)
      else out == Stop(m.(bus := bus), Unsupported)
  }

  /** Rd gets what memory holds, then the base moves on; into R15, the PC becomes its aligned value. */
  ghost predicate Loads(m: Machine, t: Transfer, out: Step)
    requires Proper(t)
  {
    match Found(m.bus, t.size, Accessed(m, t))
    case None => out == Stop(m, Fault)
    case Some(w) =>
      if !GoodBase(t) then out == Stop(m.(pc := out.m.pc, file := out.m.file), Unsupported)
      else if t.rd == 15 then out == Step(m.(pc := AlignTo(w, 4), file := WithBase(m, m.file, t)), Executed)
      else out == Step(m.(pc := Next(m), file := WithBase(m, Update(m.file, Mode(m), t.rd, w), t)), Executed)
  }

  lemma IndexedMoved(m: Machine, t: Transfer, op: Word)
    requires Proper(t) && SharedFields(t, op)
    ensures Indexed(op, Source(m, t.rn), OffsetValue(m, t.o)) == Moved(m, t)
  {
    hide OffsetValue, Flag, RegField, Wrap;
  }

  lemma SourceReads(m: Machine)
    ensures forall i: Nibble :: ReadReg(m, i, AlignTo(m.pc, 4)) == Source(m, i)
  {
    hide Index;
  }

  lemma OffsetReads(m: Machine, t: Transfer, op: Word)
    requires Proper(t)
    ensures var pc := AlignTo(m.pc, 4);
            && (Single(t) && SingleFields(t, op) ==>
                  OffsetValue(m, t.o) == (if Flag(op, 25)
                    then ShiftValue(ReadReg(m, RegField(op, 0), pc), Field(op, 5, 2), Field(op, 7, 5), m.cpsr.c, true).value
                    else Wrap(op % 0x1000)))
            && (!Single(t) && HalfFields(t, op) ==>
                  OffsetValue(m, t.o) == (if Flag(op, 22) then Wrap(RegField(op, 8) * 16 + RegField(op, 0)) else ReadReg(m, RegField(op, 0), pc)))
  {
    hide Flag, RegField, Field, Decode, ShiftValue, ReadReg, Source;
    SourceReads(m);
    if !Single(t) && t.o.ByRegister? {
      NoShift(Source(m, t.o.rm), m.cpsr.c);
    }
  }

  lemma NoShift(v: Word, c: bool)
    ensures ShiftValue(v, 0, 0, c, true).value == v
  {
  }

  ghost predicate Does(m: Machine, t: Transfer, out: Step)
    requires Proper(t)
  {
    if !Meaningful(t) then out == Stop(m, Unsupported) else if t.load then Loads(m, t, out) else Stores(m, t, out)
  }

  lemma SingleDoes(m: Machine, t: Transfer, op: Word)
    requires Proper(t) && Single(t) && SharedFields(t, op) && SingleFields(t, op)
    ensures Does(m, t, WordTransfer(m, AlignTo(m.pc, 4), op))
  {
    hide Decode, Flag, RegField, Field, ShiftValue, Rotr, Store32, Store8, Index, Bus32, Bus8, OffsetValue, Moved, Indexed, AlignTo, Source, ReadReg;
    SourceReads(m);
    OffsetReads(m, t, op);
    IndexedMoved(m, t, op);
  }

  lemma HalfDoes(m: Machine, t: Transfer, op: Word)
    requires Proper(t) && !Single(t) && SharedFields(t, op) && HalfFields(t, op)
    ensures Does(m, t, HalfTransfer(m, AlignTo(m.pc, 4), op))
  {
    hide Decode, Flag, RegField, Field, ShiftValue, SignExtendByte, SignExtendHalf, Store16, Index, Bus16, Bus8, OffsetValue, Moved, Indexed, AlignTo, Source, ReadReg;
    SourceReads(m);
    OffsetReads(m, t, op);
    IndexedMoved(m, t, op);
  }

  /** An executed load or store, or its refusal. */
  lemma TransferExact(m: Machine, t: Transfer)
    requires Proper(t) && Executes(m, TransferOp(t))
    ensures Does(m, t, StepOnce(m))
  {
    hide Does, SharedFields, TransferOp, StepOnce, WordTransfer, HalfTransfer, Bus32, ConditionPassed;
    var op := TransferOp(t);
    TransferDecodes(t);
    StepExecutes(m, op);
    if Single(t) {
      SingleDoes(m, t, op);
    } else {
      HalfDoes(m, t, op);
    }
  }

  /** An offset shifted by a register is no encoding of this core. */
  lemma ShiftByRegisterRefused(m: Machine, cond: Nibble, top: nat, rn: Nibble, rd: Nibble, low: nat)
    requires 0x60 <= top < 0x80 && low < 0x1000 && low / 0x10 % 2 == 1 && Executes(m, Instruction(cond, top, rn, rd, low))
    ensures StepOnce(m) == Stop(m, Unsupported)
  {
    hide Field, Flag, RegField, Instruction, StepOnce, Bus32, ConditionPassed, AlignTo, Decode;
    SixDigits(top, 3, top / 0x10 % 2, top / 8 % 2, top / 4 % 2, top / 2 % 2, top % 2);
    Registers(cond, top, rn, rd, low);
    Classes(cond, top, rn, rd, low);
    OpcodeBits(cond, top, rn, rd, low);
    ShiftFields(cond, top, rn, rd, low);
    CrossFields(cond, top, rn, rd, low);
    IsSingle(Instruction(cond, top, rn, rd, low));
    StepExecutes(m, Instruction(cond, top, rn, rd, low));
  }

  lemma IsSingle(op: Word)
    requires op / 0x10 % 0x100_0000 != 0x12FFF1 && Field(op, 23, 5) != 2 && Field(op, 26, 2) == 1
    requires Field(op, 22, 6) != 0 && Field(op, 25, 3) != 0
    ensures Decode(op) == SINGLE
  {
    hide Field, Flag, RegField;
  }

  // ----- Reading back

  /** The bytes of a store, lowest first; no other byte changes. */
  lemma PutBytes(bus: Bus, size: Size, at: Word, v: Word)
    requires Put(bus, size, at, v).Some?
    ensures var after, b, n := Put(bus, size, at, v).value, if size.WORD? then AlignTo(at, 4) else at, if size.WORD? then 4 else if size.BYTE? then 1 else 2;
            && after.Keys == bus.Keys
            && forall a :: a in bus ==>
                 after[a] as int == if a == b then v % 0x100
                                    else if n >= 2 && a == Plus(b, 1) then v / 0x100 % 0x100
                                    else if n == 4 && a == Plus(b, 2) then v / 0x1_0000 % 0x100
                                    else if n == 4 && a == Plus(b, 3) then v / 0x100_0000
                                    else bus[a] as int
  {
    hide AlignTo, Plus;
    var b := if size.WORD? then AlignTo(at, 4) else at;
    PlusZero(b);
    BytesDiffer(b, b, 0);
    assert Plus(b, 0) != Plus(b, 1) && Plus(b, 0) != Plus(b, 2) && Plus(b, 0) != Plus(b, 3);
    assert Plus(b, 1) != Plus(b, 2) && Plus(b, 1) != Plus(b, 3) && Plus(b, 2) != Plus(b, 3);
  }

  /** What a load of that size makes of a stored value. */
  function ReadAs(size: Size, at: Word, v: Word): Word {
    match size
    case WORD => Rotr(v, at % 4 * 8)
    case BYTE => v % 0x100
    case HALFWORD => v % 0x1_0000
    case SIGNED_BYTE => SignExtendByte(v % 0x100)
    case SIGNED_HALF => SignExtendHalf(v % 0x1_0000)
  }

  /** The same bytes. */
  predicate SamePlace(st: Size, ld: Size) {
    match st case WORD => ld.WORD? case BYTE => ld.BYTE? || ld.SIGNED_BYTE? case _ => ld.HALFWORD? || ld.SIGNED_HALF?
  }

  lemma PutFound(bus: Bus, st: Size, ld: Size, at: Word, v: Word)
    requires SamePlace(st, ld) && Put(bus, st, at, v).Some?
    ensures Found(Put(bus, st, at, v).value, ld, at) == Some(ReadAs(ld, at, v))
  {
    hide Rotr, Bus32, Store32, AlignTo, SignExtendByte, SignExtendHalf;
    if st.WORD? {
      OneWord(bus, AlignTo(at, 4), v);
    } else if !st.BYTE? {
      HalfReadBack(bus, at, v);
    }
  }

  lemma HalfReadBack(bus: Bus, at: Word, v: Word)
    requires Store16(bus, at, v).Some?
    ensures Bus16(Store16(bus, at, v).value, at) == Some(v % 0x1_0000)
  {
    hide Plus;
    PlusInjective(at, 0, 1);
    PlusZero(at);
    TwoBytes(v);
  }

  lemma TwoBytes(v: Word)
    ensures v % 0x100 + 0x100 * (v / 0x100 % 0x100) == v % 0x1_0000
  {
    var q, r := v / 0x100, v % 0x100;
    DivModUnique(v, 0x1_0000, q / 0x100, 0x100 * (q % 0x100) + r);
  }

  /** Aligned words come back as they are; otherwise the addressed byte comes back lowest. Bytes and
      half-words come back as numbers, signed ones with their sign. */
  lemma ReadAsExact(size: Size, at: Word, v: Word)
    ensures size.WORD? && at % 4 == 0 ==> ReadAs(size, at, v) == v
    ensures size.WORD? && at % 4 != 0 ==>
              forall i :: 0 <= i < 32 ==> (BitOf(ReadAs(size, at, v), i) <==> BitOf(v, (i + 8 * (at % 4)) % 32))
    ensures size.SIGNED_BYTE? ==> -0x80 <= Signed(ReadAs(size, at, v)) < 0x80 && (Signed(ReadAs(size, at, v)) - v as int) % 0x100 == 0
    ensures size.SIGNED_HALF? ==> -0x8000 <= Signed(ReadAs(size, at, v)) < 0x8000 && (Signed(ReadAs(size, at, v)) - v as int) % 0x1_0000 == 0
  {
    hide BitOf, Rotr, SignExtendByte, SignExtendHalf;
    ExtendedByte(v);
    ExtendedHalf(v);
    if size.WORD? && at % 4 == 0 {
      NoRotation(v);
    } else if size.WORD? {
      forall i | 0 <= i < 32
        ensures BitOf(ReadAs(size, at, v), i) <==> BitOf(v, (i + 8 * (at % 4)) % 32)
      {
        RotatedBytes(v, at % 4, i);
      }
    }
  }

  lemma RotatedBytes(v: Word, k: nat, i: nat)
    requires 0 < k < 4 && i < 32
    ensures BitOf(Rotr(v, k * 8), i) <==> BitOf(v, (i + 8 * k) % 32)
  {
    hide BitOf, Rotr;
    RotrBits(v, k * 8, i);
  }

  lemma ExtendedByte(v: Word)
    ensures var s := Signed(SignExtendByte(v % 0x100)); -0x80 <= s < 0x80 && (s - v as int) % 0x100 == 0
  {
  }

  lemma ExtendedHalf(v: Word)
    ensures var s := Signed(SignExtendHalf(v % 0x1_0000)); -0x8000 <= s < 0x8000 && (s - v as int) % 0x1_0000 == 0
  {
  }

  /** A load after a store at the same address, from bytes left alone in between, finds what was stored. */
  lemma LoadAfterStore(m: Machine, st: Transfer, m1: Machine, ld: Transfer)
    requires Proper(st) && !st.load && Executes(m, TransferOp(st)) && StepOnce(m).status == Executed
    requires Proper(ld) && ld.load && GoodBase(ld) && Executes(m1, TransferOp(ld)) && SamePlace(st.size, ld.size)
    requires Accessed(m1, ld) == Accessed(m, st)
    requires Found(m1.bus, ld.size, Accessed(m, st)) == Found(StepOnce(m).m.bus, ld.size, Accessed(m, st))
    ensures var out, w := StepOnce(m1), ReadAs(ld.size, Accessed(m, st), Source(m, st.rd));
            && out.status == Executed && out.m.bus == m1.bus
            && (ld.rd != 15 && !(Writes(ld) && ld.rn == ld.rd) ==> Source(out.m, ld.rd) == w)
            && (ld.rd == 15 ==> out.m.pc == AlignTo(w, 4))
  {
    hide StepOnce, Executes, TransferOp, Put, Found, ReadAs, Accessed, Moved, AlignTo, ProperOffset;
    TransferExact(m, st);
    TransferExact(m1, ld);
    PutFound(m.bus, st.size, ld.size, Accessed(m, st), Source(m, st.rd));
    if ld.rd != 15 && ld.rn != 15 && ld.rd != ld.rn {
      Distinct(Mode(m1), ld.rn);
    }
  }

  /** Opposite ways of addressing, with write-back: what one did to the base the other undoes, and both
      access the same address. */
  ghost predicate OppositeWay(st: Transfer, ld: Transfer) {
    ld.pre == !st.pre && ld.up == !st.up && ld.rn == st.rn && Writes(st) && Writes(ld)
  }

  lemma OppositeWays(m: Machine, st: Transfer, m1: Machine, ld: Transfer)
    requires Proper(st) && Proper(ld) && OppositeWay(st, ld) && st.rn != 15
    requires Source(m1, ld.rn) == Moved(m, st) && OffsetValue(m1, ld.o) == OffsetValue(m, st.o)
    ensures Accessed(m1, ld) == Accessed(m, st) && Moved(m1, ld) == Source(m, st.rn)
  {
    hide OffsetValue, ProperOffset, Source;
    var base, offset := Source(m, st.rn) as int, OffsetValue(m, st.o) as int;
    BackAgain(base, if st.up then offset else -offset);
  }

  lemma BackAgain(base: Word, d: int)
    ensures Wrap(Wrap(base as int + d) as int - d) == base
  {
    PlusTwice(base, d, -d);
  }

  /** Pushing and popping: STR with write-back and at once the opposite LDR give back the value and the
      base. */
  lemma StoreLoadOpposite(m: Machine, st: Transfer, ld: Transfer)
    requires Proper(st) && !st.load && st.rn != 15 && Executes(m, TransferOp(st)) && StepOnce(m).status == Executed
    requires Proper(ld) && ld.load && ld.rd != 15 && ld.rd != ld.rn && SamePlace(st.size, ld.size) && OppositeWay(st, ld)
    requires Executes(StepOnce(m).m, TransferOp(ld)) && OffsetValue(StepOnce(m).m, ld.o) == OffsetValue(m, st.o)
    ensures var out := StepOnce(StepOnce(m).m);
            && out.status == Executed && out.m.bus == StepOnce(m).m.bus
            && Source(out.m, ld.rd) == ReadAs(ld.size, Accessed(m, st), Source(m, st.rd))
            && Source(out.m, st.rn) == Source(m, st.rn)
  {
    hide StepOnce, Executes, TransferOp, Put, Found, ReadAs, Accessed, Moved, AlignTo, ProperOffset, OffsetValue;
    var m1 := StepOnce(m).m;
    TransferExact(m, st);
    assert Source(m1, st.rn) == Moved(m, st);
    OppositeWays(m, st, m1, ld);
    LoadAfterStore(m, st, m1, ld);
    TransferExact(m1, ld);
  }
}

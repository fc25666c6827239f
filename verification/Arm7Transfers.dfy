/** STM and the opposite LDM are inverse: stacking modes for the current registers, the `^` forms
    for the User bank. */
module Arm7Transfers {
  import opened Options
  import opened Words
  import opened Arm7Isa
  import opened Arm7Step

  // ----- Words in memory

  lemma ReadBack(bus: Bus, a: Word, v: Word)
    requires Mapped32(bus, a)
    ensures Bus32(Store32(bus, a, v).value, a) == Some(v)
  {
    hide Plus;
    PlusZero(a);
    BytesDiffer(a, a, 0);
    assert Plus(a, 0) != Plus(a, 1) && Plus(a, 0) != Plus(a, 2) && Plus(a, 0) != Plus(a, 3);
    assert Plus(a, 1) != Plus(a, 2) && Plus(a, 1) != Plus(a, 3) && Plus(a, 2) != Plus(a, 3);
    BytesOfWord(v);
  }

  /** The bytes of one word are different addresses; so are those of words 4*d apart. */
  lemma BytesDiffer(a: Word, b: Word, d: int)
    requires b == Plus(a, 4 * d) && -16 <= d <= 16
    ensures forall i, j :: 0 <= i < 4 && 0 <= j < 4 && (d != 0 || i != j) ==> Plus(a, i) != Plus(b, j)
  {
    forall i, j | 0 <= i < 4 && 0 <= j < 4 && (d != 0 || i != j)
      ensures Plus(a, i) != Plus(b, j)
    {
      PlusTwice(a, 4 * d, j);
      PlusInjective(a, i, 4 * d + j);
    }
  }

  lemma PlusInjective(a: Word, x: int, y: int)
    requires -0x100 <= x <= 0x100 && -0x100 <= y <= 0x100 && x != y
    ensures Plus(a, x) != Plus(a, y)
  {
    WrapNear(a as int + x);
    WrapNear(a as int + y);
  }

  lemma ReadOther(bus: Bus, a: Word, v: Word, b: Word, d: int)
    requires Mapped32(bus, a) && b == Plus(a, 4 * d) && -16 <= d <= 16 && d != 0
    ensures Bus32(Store32(bus, a, v).value, b) == Bus32(bus, b)
  {
    hide Plus;
    BytesDiffer(a, b, d);
    var bus' := Store32(bus, a, v).value;
    PlusZero(a);
    PlusZero(b);
    forall j | 0 <= j < 4
      ensures Plus(b, j) in bus' <==> Plus(b, j) in bus
      ensures Plus(b, j) in bus ==> bus'[Plus(b, j)] == bus[Plus(b, j)]
    {
    }
    assert Plus(b, 1) in bus' <==> Plus(b, 1) in bus;
    assert Plus(b, 2) in bus' <==> Plus(b, 2) in bus;
    assert Plus(b, 3) in bus' <==> Plus(b, 3) in bus;
  }

  // ----- The two loops

  /** Position of register j among the listed registers from i on. */
  function Rank(list: nat, i: nat, j: nat): int { CountFrom(list, i) - CountFrom(list, j) }

  /** Where the loop that is at register i and address a keeps register j. */
  function Place(list: nat, i: nat, a: Word, j: nat): Word { Plus(a, 4 * Rank(list, i, j)) }

  lemma {:induction false} CountMonotone(list: nat, i: nat, j: nat)
    requires i <= j <= 16
    ensures 0 <= Rank(list, i, j) <= 16
    decreases j - i
  {
    if i < j {
      CountMonotone(list, i + 1, j);
    }
  }

  /** Moving past register i: the places of the later ones stay. */
  lemma PlaceStep(list: nat, i: nat, a: Word, j: nat)
    requires i < j <= 16
    ensures Place(list, i, a, j) == Place(list, i + 1, if InList(list, i) then Plus(a, 4) else a, j)
    ensures Place(list, i, a, i) == a
  {
    hide Plus, InList;
    PlusTwice(a, 4, 4 * Rank(list, i + 1, j));
    PlusZero(a);
  }

  lemma PlusZero(a: Word)
    ensures Plus(a, 0) == a
  {
  }

  /** After a finished store loop every listed register is at its place, and the sixteen words
      below the start are as they were. */
  lemma {:induction false} StoredAtPlaces(m: Machine, bus: Bus, pc: Word, list: nat, i: nat, a: Word, user: bool)
    requires i <= 16 && StoreList(m, bus, pc, list, i, a, user).1
    ensures var bus' := StoreList(m, bus, pc, list, i, a, user).0;
            && (forall j :: i <= j < 16 && InList(list, j) ==>
                  Bus32(bus', Place(list, i, a, j)) == Some(StoredValue(m, pc, j, user)))
            && (forall d :: 1 <= d <= i ==> Bus32(bus', Plus(a, -4 * d)) == Bus32(bus, Plus(a, -4 * d)))
    decreases 16 - i
  {
    hide Bus32, Plus, InList, StoredValue, Place, Store32;
    if i < 16 {
      var next := if InList(list, i) then Plus(a, 4) else a;
      var v := StoredValue(m, pc, i, user);
      var bus1 := if InList(list, i) then Store32(bus, a, v).value else bus;
      StoredAtPlaces(m, bus1, pc, list, i + 1, next, user);
      var bus' := StoreList(m, bus, pc, list, i, a, user).0;
      forall j | i <= j < 16 && InList(list, j)
        ensures Bus32(bus', Place(list, i, a, j)) == Some(StoredValue(m, pc, j, user))
      {
        PlaceStep(list, i, a, if j == i then 16 else j);
        if j == i {
          OneWord(bus, a, v);
          OneDown(a);
        }
      }
      forall d | 1 <= d <= i
        ensures Bus32(bus', Plus(a, -4 * d)) == Bus32(bus, Plus(a, -4 * d))
      {
        if InList(list, i) {
          LowerWord(bus, a, v, d);
        }
      }
    }
  }

  lemma OneDown(a: Word)
    ensures Plus(Plus(a, 4), -4 * 1) == a
  {
  }

  lemma OneWord(bus: Bus, a: Word, v: Word)
    requires Store32(bus, a, v).Some?
    ensures Bus32(Store32(bus, a, v).value, a) == Some(v)
  {
    ReadBack(bus, a, v);
  }

  lemma LowerWord(bus: Bus, a: Word, v: Word, d: int)
    requires Store32(bus, a, v).Some? && 1 <= d <= 16
    ensures Bus32(Store32(bus, a, v).value, Plus(a, -4 * d)) == Bus32(bus, Plus(a, -4 * d))
    ensures Plus(Plus(a, 4), -4 * (d + 1)) == Plus(a, -4 * d)
  {
    ReadOther(bus, a, v, Plus(a, -4 * d), -d);
    PlusTwice(a, 4, -4 * (d + 1));
  }

  /** A load loop that finds values vals(j) at the places of the listed registers puts them there
      and changes no other physical register. */
  lemma {:induction false} LoadedFromPlaces(file: File, mode: nat, bus: Bus, list: nat, i: nat, a: Word, vals: seq<Word>)
    requires i <= 16 && |vals| == 16 && !InList(list, 15)
    requires forall j :: i <= j < 16 && InList(list, j) ==> Bus32(bus, Place(list, i, a, j)) == Some(vals[j])
    ensures var l := LoadList(file, mode, bus, list, i, a);
            && l.done && l.pcValue == None
            && (forall j: Reg :: i <= j && InList(list, j) ==> View(l.file, mode, j) == vals[j])
            && (forall k :: 0 <= k < 30 && (forall j: Reg :: i <= j && InList(list, j) ==> Index(mode, j) != k) ==> l.file[k] == file[k])
    decreases 16 - i
  {
    hide Bus32, Plus, InList, Place, Index;
    if i < 16 {
      forall j | i < j < 16 && InList(list, j)
        ensures Place(list, i, a, j) == Place(list, i + 1, if InList(list, i) then Plus(a, 4) else a, j)
      {
        PlaceStep(list, i, a, j);
      }
      PlaceStep(list, i, a, 16);
      if InList(list, i) {
        LoadedFromPlaces(Update(file, mode, i, vals[i]), mode, bus, list, i + 1, Plus(a, 4), vals);
        Distinct(mode, i);
      } else {
        LoadedFromPlaces(file, mode, bus, list, i + 1, a, vals);
      }
    }
  }

  lemma Distinct(mode: nat, i: Reg)
    ensures forall j: Reg :: j != i ==> Index(mode, j) != Index(mode, i)
  {
  }

  // ----- Whole transfers

  /** No R15 in the list, no base in the list, something to transfer. */
  ghost predicate Plain(b: Block) {
    b.rn < 15 && CountFrom(b.list, 0) > 0 && !InList(b.list, 15) && !InList(b.list, b.rn)
  }

  /** The addressing mode that undoes b: DB against IA, DA against IB, and the other way round. */
  ghost predicate Opposite(st: Block, ld: Block) {
    ld.pre == !st.pre && ld.up == !st.up && ld.rn == st.rn && ld.list == st.list
  }

  lemma OppositeAddresses(st: Block, ld: Block, base: Word)
    requires Opposite(st, ld)
    ensures StartAddress(ld, NewBase(st, base)) == StartAddress(st, base)
    ensures NewBase(ld, NewBase(st, base)) == base
  {
    hide CountFrom, Plus, Minus;
    var n := 4 * CountFrom(st.list, 0);
    MinusIsPlus(base, n);
    MinusIsPlus(base, n - 4);
    MinusIsPlus(Plus(base, n), n);
    MinusIsPlus(Plus(base, n), n - 4);
    PlusTwice(base, n, -n);
    PlusTwice(base, n, 4 - n);
    PlusTwice(base, -n, n);
    PlusTwice(base, -n, 0);
    PlusTwice(base, -n, 4);
    PlusZero(base);
  }

  lemma MinusIsPlus(a: Word, x: int)
    ensures Minus(a, x) == Plus(a, -x)
  {
  }

  /** The words of the block that st stored at m are still in memory at m1. */
  ghost predicate BlockIntact(m: Machine, st: Block, stored: Bus, bus: Bus)
    requires st.rn < 15
  {
    forall j :: 0 <= j < 16 && InList(st.list, j) ==>
      var a := Place(st.list, 0, StartAddress(st, Live(m, st.rn)), j);
      Bus32(bus, a) == Bus32(stored, a)
  }

  function StoredValues(m: Machine, pc: Word, user: bool): (vals: seq<Word>)
    ensures |vals| == 16 && forall j :: 0 <= j < 16 ==> vals[j] == StoredValue(m, pc, j, user)
  {
    seq(16, j requires 0 <= j < 16 => StoredValue(m, pc, j, user))
  }

  /** STM with writeback, anything at all in between that keeps the mode, the new base and the
      stored words, then the opposite LDM with writeback: the listed registers and the base are
      back, and no other register is touched by the load. */
  lemma StackRoundTrip(m: Machine, pc: Word, st: Block, m1: Machine, pc1: Word, ld: Block)
    requires Plain(st) && !st.load && !st.caret && st.writeback
    requires Opposite(st, ld) && ld.load && !ld.caret && ld.writeback
    requires BlockTransfer(m, pc, st).status == Executed
    requires var s := BlockTransfer(m, pc, st).m;
             Mode(m1) == Mode(m) && Live(m1, st.rn) == Live(s, st.rn) && BlockIntact(m, st, s.bus, m1.bus)
    ensures var out := BlockTransfer(m1, pc1, ld);
            && out.status == Executed && out.m.cpsr == m1.cpsr && out.m.bus == m1.bus
            && (forall j: Reg :: InList(st.list, j) ==> Live(out.m, j) == Live(m, j))
            && Live(out.m, st.rn) == Live(m, st.rn)
            && (forall k :: (0 <= k < 30 && k != Index(Mode(m), st.rn) && (forall j: Reg :: InList(st.list, j) ==> Index(Mode(m), j) != k))
                            ==> out.m.file[k] == m1.file[k])
  {
    hide Bus32, Plus, InList, Place, CountFrom, StoreList, LoadList, StartAddress, NewBase, Index, StoredValue;
    var base := Live(m, st.rn);
    var start := StartAddress(st, base);
    var vals := StoredValues(m, pc, false);
    StoredAtPlaces(m, m.bus, pc, st.list, 0, start, false);
    LiveValues(m, pc, false);
    OppositeAddresses(st, ld, base);
    LoadedFromPlaces(m1.file, Mode(m), m1.bus, st.list, 0, start, vals);
    Distinct(Mode(m), st.rn);
  }

  lemma LiveValues(m: Machine, pc: Word, user: bool)
    ensures forall j: Reg :: StoredValue(m, pc, j, user) == if user then View(m.file, USR, j) else Live(m, j)
  {
  }

  /** STM ^ and LDM ^ without writeback, over the same block, from whatever modes: the listed
      User registers are back and every other physical register is left alone. */
  lemma UserBankRoundTrip(m: Machine, pc: Word, st: Block, m1: Machine, pc1: Word, ld: Block)
    requires st.rn < 15 && CountFrom(st.list, 0) > 0 && !InList(st.list, 15)
    requires !st.load && st.caret && !st.writeback && ld == st.(load := true)
    requires BlockTransfer(m, pc, st).status == Executed
    requires var s := BlockTransfer(m, pc, st).m;
             Live(m1, st.rn) == Live(m, st.rn) && BlockIntact(m, st, s.bus, m1.bus)
    ensures BlockTransfer(m, pc, st).m.file == m.file
    ensures var out := BlockTransfer(m1, pc1, ld);
            && out.status == Executed && out.m.cpsr == m1.cpsr && out.m.bus == m1.bus
            && (forall j: Reg :: InList(st.list, j) ==> View(out.m.file, USR, j) == View(m.file, USR, j))
            && (forall k :: 0 <= k < 30 && (forall j: Reg :: InList(st.list, j) ==> Index(USR, j) != k) ==> out.m.file[k] == m1.file[k])
  {
    hide Bus32, Plus, InList, Place, CountFrom, StoreList, LoadList, Index, StoredValue;
    var start := StartAddress(st, Live(m, st.rn));
    var vals := StoredValues(m, pc, true);
    StoredAtPlaces(m, m.bus, pc, st.list, 0, start, true);
    LiveValues(m, pc, true);
    LoadedFromPlaces(m1.file, USR, m1.bus, st.list, 0, start, vals);
  }
}

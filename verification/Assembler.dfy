/** The two-pass SH-4 assembler, `tools/make_addressbus_elf.py`, read back by the processor. */
module Assembler {
  import opened Options
  import opened Words
  import opened Sh4Isa
  import opened Sh4Program

  datatype JumpKind = BF | BT | BRA | BSR

  /** One emitted instruction word, with its label or literal still symbolic. */
  datatype Ins =
    | MovImm(imm: int, rn: RegIndex)
    | Mov(rm: RegIndex, rn: RegIndex)
    | AddImm(imm: int, rn: RegIndex)
    | Add(rm: RegIndex, rn: RegIndex)
    | Shll(rn: RegIndex)
    | Shll2(rn: RegIndex)
    | Shlr2(rn: RegIndex)
    | Tst(rm: RegIndex, rn: RegIndex)
    | CmpEq(rm: RegIndex, rn: RegIndex)
    | StoreL(rm: RegIndex, rn: RegIndex)
    | LoadL(rm: RegIndex, rn: RegIndex)
    | StoreIdx(rm: RegIndex, rn: RegIndex)
    | LoadIdx(rm: RegIndex, rn: RegIndex)
    | PushPr
    | PopPr
    | Rts
    | Nop
    | Goto(kind: JumpKind, name: string)
    | Literal(rn: RegIndex, value: int)

  datatype Fixup = Fixup(idx: nat, name: string, kind: JumpKind)

  datatype LiteralFixup = LiteralFixup(idx: nat, rn: RegIndex, value: int)

  /** Everything assembled so far; `code` says what each word stands for. */
  datatype Listing = Listing(base: int, code: seq<Ins>, labels: map<string, int>,
                             fixups: seq<Fixup>, literals: seq<LiteralFixup>)

  // ----- Encodings

  function JumpOpcode(kind: JumpKind): Half {
    match kind case BF => 0x8B00 case BT => 0x8900 case BRA => 0xA000 case BSR => 0xB000
  }

  function Reach(kind: JumpKind): int {
    match kind case BF => 128 case BT => 128 case BRA => 2048 case BSR => 2048
  }

  /** The word as first emitted; jumps and literal loads still have displacement 0. */
  function Encode(ins: Ins): Half {
    match ins
    case MovImm(imm, rn) => Op1(0xE000, rn) + imm % 0x100
    case Mov(rm, rn) => Op2(0x6003, rm, rn)
    case AddImm(imm, rn) => Op1(0x7000, rn) + imm % 0x100
    case Add(rm, rn) => Op2(0x300C, rm, rn)
    case Shll(rn) => Op1(0x4000, rn)
    case Shll2(rn) => Op1(0x4008, rn)
    case Shlr2(rn) => Op1(0x4009, rn)
    case Tst(rm, rn) => Op2(0x2008, rm, rn)
    case CmpEq(rm, rn) => Op2(0x3000, rm, rn)
    case StoreL(rm, rn) => Op2(0x2002, rm, rn)
    case LoadL(rm, rn) => Op2(0x6002, rm, rn)
    case StoreIdx(rm, rn) => Op2(0x0006, rm, rn)
    case LoadIdx(rm, rn) => Op2(0x000E, rm, rn)
    case PushPr => 0x4F22
    case PopPr => 0x4F26
    case Rts => 0x000B
    case Nop => 0x0009
    case Goto(kind, _) => JumpOpcode(kind)
    case Literal(rn, _) => Op1(0xD000, rn)
  }

  function AddressOf(l: Listing, i: nat): int { l.base + 2 * i }

  function JumpDisp(l: Listing, i: nat, target: int): int { (target - (AddressOf(l, i) + 4)) / 2 }

  /** Where the literal pool begins, in words: one NOP aligns it. */
  function PoolStart(l: Listing): nat {
    |l.code| + if AddressOf(l, |l.code|) % 4 != 0 then 1 else 0
  }

  /** The requested values, each once, in order of first use. */
  function Pool(literals: seq<LiteralFixup>): seq<int> {
    if literals == [] then []
    else
      var pool := Pool(literals[..|literals| - 1]);
      var v := literals[|literals| - 1].value;
      if v in pool then pool else pool + [v]
  }

  function Position(pool: seq<int>, v: int): nat {
    if pool == [] || pool[0] == v then 0 else 1 + Position(pool[1..], v)
  }

  function LiteralAt(l: Listing, v: int): int {
    AddressOf(l, PoolStart(l) + 2 * Position(Pool(l.literals), v))
  }

  function LiteralDisp(l: Listing, i: nat, target: int): int {
    var next := AddressOf(l, i) + 4;
    (target - (next - next % 4)) / 4
  }

  /** Whether `finish` can resolve word i. */
  predicate Resolvable(l: Listing, i: nat)
    requires i < |l.code|
  {
    match l.code[i]
    case Goto(kind, name) => name in l.labels && -Reach(kind) <= JumpDisp(l, i, l.labels[name]) < Reach(kind)
    case Literal(_, v) => 0 <= LiteralDisp(l, i, LiteralAt(l, v)) <= 255
    case _ => true
  }

  /** The final word i. */
  function Resolved(l: Listing, i: nat): Half
    requires i < |l.code| && Resolvable(l, i)
  {
    match l.code[i]
    case Goto(kind, name) => JumpOpcode(kind) + JumpDisp(l, i, l.labels[name]) % (2 * Reach(kind))
    case Literal(rn, v) => Op1(0xD000, rn) + LiteralDisp(l, i, LiteralAt(l, v))
    case _ => Encode(l.code[i])
  }

  function PoolWords(pool: seq<int>): (ws: seq<Half>)
    ensures |ws| == 2 * |pool|
  {
    if pool == [] then []
    else
      var v := pool[|pool| - 1];
      PoolWords(pool[..|pool| - 1]) + [v % 0x1_0000, v / 0x1_0000 % 0x1_0000]
  }

  function Pack(ws: seq<Half>): (bytes: seq<Byte>)
    ensures |bytes| == 2 * |ws|
  {
    if ws == [] then []
    else
      var w := ws[|ws| - 1];
      Pack(ws[..|ws| - 1]) + [w % 0x100, w / 0x100]
  }

  /** The words of a finished program: resolved code, alignment, pool. */
  ghost predicate Finished(l: Listing, ws: seq<Half>) {
    && |ws| == PoolStart(l) + 2 * |Pool(l.literals)|
    && (forall i :: 0 <= i < |l.code| ==> Resolvable(l, i))
    && (forall i :: 0 <= i < |l.code| ==> ws[i] == Resolved(l, i))
    && ws[PoolStart(l)..] == PoolWords(Pool(l.literals))
  }

  // ----- What a listing keeps while it grows

  ghost predicate FixupsFit(code: seq<Ins>, fixups: seq<Fixup>) {
    && (forall k :: 0 <= k < |fixups| ==>
          fixups[k].idx < |code| && code[fixups[k].idx] == Goto(fixups[k].kind, fixups[k].name))
    && (forall j, k :: 0 <= j < k < |fixups| ==> fixups[j].idx < fixups[k].idx)
    && (forall i :: 0 <= i < |code| && code[i].Goto? ==> exists k :: 0 <= k < |fixups| && fixups[k].idx == i)
  }

  ghost predicate LiteralsFit(code: seq<Ins>, literals: seq<LiteralFixup>) {
    && (forall k :: 0 <= k < |literals| ==>
          literals[k].idx < |code| && code[literals[k].idx] == Literal(literals[k].rn, literals[k].value))
    && (forall j, k :: 0 <= j < k < |literals| ==> literals[j].idx < literals[k].idx)
    && (forall i :: 0 <= i < |code| && code[i].Literal? ==> exists k :: 0 <= k < |literals| && literals[k].idx == i)
  }

  ghost predicate LabelsFit(base: int, labels: map<string, int>) {
    forall name :: name in labels ==> (labels[name] - base) % 2 == 0
  }

  ghost predicate WellFormed(l: Listing) {
    FixupsFit(l.code, l.fixups) && LiteralsFit(l.code, l.literals) && LabelsFit(l.base, l.labels)
  }

  // ----- The pool

  lemma {:induction false} PoolHolds(literals: seq<LiteralFixup>)
    ensures forall k :: 0 <= k < |literals| ==> literals[k].value in Pool(literals)
    ensures forall i, j :: 0 <= i < j < |Pool(literals)| ==> Pool(literals)[i] != Pool(literals)[j]
  {
    if literals != [] {
      var front := literals[..|literals| - 1];
      PoolHolds(front);
      forall k | 0 <= k < |literals| - 1
        ensures literals[k].value in Pool(literals)
      {
        assert front[k].value in Pool(front);
      }
    }
  }

  lemma {:induction false} PositionFinds(pool: seq<int>, v: int)
    requires v in pool
    ensures Position(pool, v) < |pool| && pool[Position(pool, v)] == v
  {
    if pool[0] != v {
      PositionFinds(pool[1..], v);
    }
  }

  lemma {:induction false} PositionKeeps(pool: seq<int>, more: seq<int>, v: int)
    ensures v in pool ==> Position(pool + more, v) == Position(pool, v)
    ensures v !in pool ==> Position(pool + [v], v) == |pool|
  {
    if pool != [] && pool[0] != v {
      PositionKeeps(pool[1..], more, v);
      assert (pool + more)[1..] == pool[1..] + more;
      assert (pool + [v])[1..] == pool[1..] + [v];
    }
  }

  /** The dictionary of literal addresses, for the pool that is at `start`. */
  ghost predicate Placed(start: int, addresses: map<int, int>, pool: seq<int>) {
    && (forall v :: v in addresses <==> v in pool)
    && (forall v :: v in addresses ==> addresses[v] == start + 4 * Position(pool, v))
  }

  lemma NonePlaced(start: int)
    ensures Placed(start, map[], []) && PoolWords([]) == []
  {
  }

  lemma PlacedNext(start: int, addresses: map<int, int>, pool: seq<int>, v: int)
    requires Placed(start, addresses, pool)
    ensures v in addresses <==> v in pool
    ensures v !in pool ==> Placed(start, addresses[v := start + 4 * |pool|], pool + [v])
    ensures PoolWords(pool + [v]) == PoolWords(pool) + [v % 0x1_0000, v / 0x1_0000 % 0x1_0000]
  {
    assert (pool + [v])[..|pool|] == pool;
    forall w
      ensures w in pool ==> Position(pool + [v], w) == Position(pool, w)
      ensures w !in pool ==> Position(pool + [w], w) == |pool|
    {
      PositionKeeps(pool, [v], w);
    }
  }

  lemma AllPlaced(start: int, addresses: map<int, int>, literals: seq<LiteralFixup>)
    requires Placed(start, addresses, Pool(literals))
    ensures forall k :: 0 <= k < |literals| ==> literals[k].value in addresses
    ensures forall k :: 0 <= k < |literals| ==> addresses[literals[k].value] == start + 4 * Position(Pool(literals), literals[k].value)
  {
    PoolHolds(literals);
  }

  lemma {:induction false} PoolWordAt(pool: seq<int>, k: nat)
    requires k < |pool|
    ensures PoolWords(pool)[2 * k] == pool[k] % 0x1_0000 && PoolWords(pool)[2 * k + 1] == pool[k] / 0x1_0000 % 0x1_0000
  {
    if k < |pool| - 1 {
      PoolWordAt(pool[..|pool| - 1], k);
    }
  }

  lemma {:induction false} PackAt(ws: seq<Half>, i: nat)
    requires i < |ws|
    ensures Pack(ws)[2 * i] == ws[i] % 0x100 && Pack(ws)[2 * i + 1] == ws[i] / 0x100
  {
    if i < |ws| - 1 {
      PackAt(ws[..|ws| - 1], i);
    }
  }

  // ----- The assembler

  class Asm {
    const base: int
    var words: seq<Half>
    var labels: map<string, int>
    var fixups: seq<Fixup>
    var literalFixups: seq<LiteralFixup>
    ghost var code: seq<Ins>

    ghost function Abstract(): Listing
      reads this
    {
      Listing(base, code, labels, fixups, literalFixups)
    }

    ghost predicate Valid()
      reads this
    {
      && WellFormed(Abstract()) && |words| == |code|
      && forall i :: 0 <= i < |code| ==> words[i] == Encode(code[i])
    }

    constructor (base: int)
      ensures Valid() && Abstract() == Listing(base, [], map[], [], [])
    {
      this.base := base;
      words, code, labels, fixups, literalFixups := [], [], map[], [], [];
    }

    /** A label names the address of the next word; a later definition replaces it. */
    method Label(name: string)
      requires Valid()
      modifies this`labels
      ensures Valid() && labels == old(labels)[name := base + 2 * |words|]
    {
      hide FixupsFit, LiteralsFit, Encode;
      labels := labels[name := base + 2 * |words|];
    }

    /** The builders that need no fixup. */
    method Emit(ins: Ins)
      requires Valid() && !ins.Goto? && !ins.Literal?
      modifies this`words, this`code
      ensures Valid() && code == old(code) + [ins] && words == old(words) + [Encode(ins)]
    {
      hide WellFormed, Encode;
      words := words + [Encode(ins)];
      code := code + [ins];
      PlainFits(old(Abstract()), Abstract(), ins);
    }

    method EmitRts()
      requires Valid()
      modifies this`words, this`code
      ensures Valid() && code == old(code) + [Rts, Nop]
    {
      Emit(Rts);
      Emit(Nop);
    }

    /** bf, bt, bra and bsr; the last two are followed by a NOP in their delay slot. */
    method EmitJump(kind: JumpKind, name: string)
      requires Valid()
      modifies this`words, this`code, this`fixups
      ensures Valid() && code == old(code) + [Goto(kind, name)] + if kind in {BRA, BSR} then [Nop] else []
    {
      var idx := |words|;
      words := words + [JumpOpcode(kind)];
      fixups := fixups + [Fixup(idx, name, kind)];
      code := code + [Goto(kind, name)];
      JumpFits(old(Abstract()), Abstract(), kind, name);
      if kind == BRA || kind == BSR {
        Emit(Nop);
      }
    }

    method EmitLiteral(rn: RegIndex, value: int)
      requires Valid()
      modifies this`words, this`code, this`literalFixups
      ensures Valid() && code == old(code) + [Literal(rn, value)]
    {
      var idx := |words|;
      words := words + [Op1(0xD000, rn)];
      literalFixups := literalFixups + [LiteralFixup(idx, rn, value)];
      code := code + [Literal(rn, value)];
      LiteralFits(old(Abstract()), Abstract(), rn, value);
    }

    /** Resolves everything. It succeeds exactly when every jump has its label in reach and every
        literal is in reach, and then gives the bytes of the finished program. */
    method Finish() returns (r: Option<seq<Byte>>)
      requires Valid()
      modifies this`words
      ensures r.Some? <==> forall i :: 0 <= i < |code| ==> Resolvable(Abstract(), i)
      ensures r.Some? ==> Finished(Abstract(), words) && r.value == Pack(words)
    {
      hide WellFormed, Resolvable, Resolved, Encode, LiteralAt, LiteralDisp, JumpDisp;
      var addresses := PlaceLiterals();
      var ok := PatchJumps();
      if !ok {
        return None;
      }
      ok := PatchLiterals(addresses);
      if !ok {
        return None;
      }
      AllPatched(Abstract(), words);
      var bytes: seq<Byte> := [];
      for i := 0 to |words|
        invariant bytes == Pack(words[..i])
      {
        assert words[..i + 1][..i] == words[..i];
        bytes := bytes + [words[i] % 0x100, words[i] / 0x100];
      }
      assert words[..|words|] == words;
      r := Some(bytes);
    }

    /** Aligns and appends the pool; says where each value is. */
    method PlaceLiterals() returns (addresses: map<int, int>)
      requires |words| == |code|
      modifies this`words
      ensures |words| == PoolStart(Abstract()) + 2 * |Pool(literalFixups)|
      ensures words[..|code|] == old(words) && words[PoolStart(Abstract())..] == PoolWords(Pool(literalFixups))
      ensures forall k :: 0 <= k < |literalFixups| ==>
                literalFixups[k].value in addresses
                && addresses[literalFixups[k].value] == LiteralAt(Abstract(), literalFixups[k].value)
    {
      hide PoolWords, Placed, Position;
      if (base + 2 * |words|) % 4 != 0 {
        words := words + [0x0009];
      }
      ghost var head := words;
      ghost var start := base + 2 * |head|;
      addresses := map[];
      NonePlaced(start);
      for j := 0 to |literalFixups|
        modifies this`words
        invariant words == head + PoolWords(Pool(literalFixups[..j]))
        invariant Placed(start, addresses, Pool(literalFixups[..j]))
      {
        assert literalFixups[..j + 1][..j] == literalFixups[..j];
        var value := literalFixups[j].value;
        PlacedNext(start, addresses, Pool(literalFixups[..j]), value);
        if value !in addresses {
          addresses := addresses[value := base + 2 * |words|];
          words := words + [value % 0x1_0000, value / 0x1_0000 % 0x1_0000];
        }
      }
      assert literalFixups[..|literalFixups|] == literalFixups;
      AllPlaced(start, addresses, literalFixups);
    }

    method PatchJumps() returns (ok: bool)
      requires WellFormed(Abstract()) && |words| >= |code|
      requires forall i :: 0 <= i < |code| ==> words[i] == Encode(code[i])
      modifies this`words
      ensures ok <==> forall i :: 0 <= i < |code| && code[i].Goto? ==> Resolvable(Abstract(), i)
      ensures |words| == old(|words|) && words[|code|..] == old(words[|code|..])
      ensures ok ==> forall i :: 0 <= i < |code| && code[i].Goto? ==> words[i] == Resolved(Abstract(), i)
      ensures forall i :: 0 <= i < |code| && !code[i].Goto? ==> words[i] == Encode(code[i])
    {
      hide Encode, Resolvable, Resolved, FixupsFit, LiteralsFit, LabelsFit, JumpsDone;
      ghost var l, start := Abstract(), words;
      NoJumpsDone(l, start);
      for k := 0 to |fixups|
        modifies this`words
        invariant JumpsDone(l, start, words, k)
      {
        var f := fixups[k];
        var addr := base + 2 * f.idx;
        NextJump(l, start, words, k);
        if f.name !in labels {
          assert code[f.idx].Goto? && !Resolvable(l, f.idx);
          return false;
        }
        var disp := (labels[f.name] - (addr + 4)) / 2;
        if f.kind == BF || f.kind == BT {
          if !(-128 <= disp <= 127) {
            return false;
          }
          words := words[f.idx := (if f.kind == BF then 0x8B00 else 0x8900) + disp % 0x100];
        } else {
          if !(-2048 <= disp <= 2047) {
            return false;
          }
          words := words[f.idx := (if f.kind == BRA then 0xA000 else 0xB000) + disp % 0x1000];
        }
      }
      AllJumpsDone(l, start, words);
      ok := true;
    }

    method PatchLiterals(addresses: map<int, int>) returns (ok: bool)
      requires WellFormed(Abstract()) && |words| >= |code|
      requires forall k :: 0 <= k < |literalFixups| ==>
                 literalFixups[k].value in addresses
                 && addresses[literalFixups[k].value] == LiteralAt(Abstract(), literalFixups[k].value)
      modifies this`words
      ensures ok <==> forall i :: 0 <= i < |code| && code[i].Literal? ==> Resolvable(Abstract(), i)
      ensures |words| == old(|words|) && words[|code|..] == old(words[|code|..])
      ensures ok ==> forall i :: 0 <= i < |code| && code[i].Literal? ==> words[i] == Resolved(Abstract(), i)
      ensures forall i :: 0 <= i < |code| && !code[i].Literal? ==> words[i] == old(words[i])
    {
      hide Encode, Resolvable, Resolved, LiteralAt, FixupsFit, LabelsFit;
      ghost var l := Abstract();
      for k := 0 to |literalFixups|
        modifies this`words
        invariant |words| == old(|words|) && words[|code|..] == old(words[|code|..])
        invariant forall j :: 0 <= j < k ==> Resolvable(l, literalFixups[j].idx)
        invariant forall j :: 0 <= j < k ==> words[literalFixups[j].idx] == Resolved(l, literalFixups[j].idx)
        invariant forall i :: 0 <= i < |code| && !code[i].Literal? ==> words[i] == old(words[i])
      {
        var f := literalFixups[k];
        var addr := base + 2 * f.idx;
        var pcbase := addr + 4 - (addr + 4) % 4;
        var disp := (addresses[f.value] - pcbase) / 4;
        LiteralWord(l, f);
        if !(0 <= disp <= 255) {
          return false;
        }
        words := words[f.idx := 0xD000 + f.rn * 0x100 + disp];
      }
      ok := true;
    }
  }

  lemma JumpWord(l: Listing, f: Fixup)
    requires f.idx < |l.code| && l.code[f.idx] == Goto(f.kind, f.name)
    ensures Resolvable(l, f.idx) <==>
            f.name in l.labels && -Reach(f.kind) <= (l.labels[f.name] - (l.base + 2 * f.idx + 4)) / 2 < Reach(f.kind)
    ensures Resolvable(l, f.idx) ==>
              Resolved(l, f.idx) == JumpOpcode(f.kind) + (l.labels[f.name] - (l.base + 2 * f.idx + 4)) / 2 % (2 * Reach(f.kind))
  {
  }

  /** The first k fixups are patched, and nothing else has changed since `start`. */
  ghost predicate JumpsDone(l: Listing, start: seq<Half>, ws: seq<Half>, k: nat) {
    && k <= |l.fixups| && |ws| == |start| >= |l.code| && ws[|l.code|..] == start[|l.code|..]
    && (forall j :: 0 <= j < k ==> l.fixups[j].idx < |l.code| && Resolvable(l, l.fixups[j].idx))
    && (forall j :: 0 <= j < k ==> ws[l.fixups[j].idx] == Resolved(l, l.fixups[j].idx))
    && (forall i :: 0 <= i < |l.code| && !l.code[i].Goto? ==> ws[i] == start[i])
  }

  lemma NoJumpsDone(l: Listing, start: seq<Half>)
    requires |start| >= |l.code|
    ensures JumpsDone(l, start, start, 0)
  {
  }

  /** What patching the next jump takes. */
  lemma NextJump(l: Listing, start: seq<Half>, ws: seq<Half>, k: nat)
    requires FixupsFit(l.code, l.fixups) && k < |l.fixups| && JumpsDone(l, start, ws, k)
    ensures var f := l.fixups[k];
            && f.idx < |l.code| && l.code[f.idx] == Goto(f.kind, f.name)
            && f.idx < |ws| == |start|
            && (Resolvable(l, f.idx) <==>
                  f.name in l.labels && -Reach(f.kind) <= (l.labels[f.name] - (l.base + 2 * f.idx + 4)) / 2 < Reach(f.kind))
            && (Resolvable(l, f.idx) ==>
                  var w := JumpOpcode(f.kind) + (l.labels[f.name] - (l.base + 2 * f.idx + 4)) / 2 % (2 * Reach(f.kind));
                  JumpsDone(l, start, ws[f.idx := w], k + 1))
    ensures ws[|l.code|..] == start[|l.code|..] && forall i :: 0 <= i < |l.code| && !l.code[i].Goto? ==> ws[i] == start[i]
  {
    hide Resolvable, Resolved;
    JumpWord(l, l.fixups[k]);
  }

  lemma AllJumpsDone(l: Listing, start: seq<Half>, ws: seq<Half>)
    requires FixupsFit(l.code, l.fixups) && JumpsDone(l, start, ws, |l.fixups|)
    ensures |ws| == |start| && ws[|l.code|..] == start[|l.code|..]
    ensures forall i :: 0 <= i < |l.code| && l.code[i].Goto? ==> Resolvable(l, i)
    ensures forall i :: 0 <= i < |l.code| && l.code[i].Goto? ==> ws[i] == Resolved(l, i)
    ensures forall i :: 0 <= i < |l.code| && !l.code[i].Goto? ==> ws[i] == start[i]
  {
    hide Resolvable, Resolved;
  }

  lemma LiteralWord(l: Listing, f: LiteralFixup)
    requires f.idx < |l.code| && l.code[f.idx] == Literal(f.rn, f.value)
    ensures var next := l.base + 2 * f.idx + 4; var disp := (LiteralAt(l, f.value) - (next - next % 4)) / 4;
            && (Resolvable(l, f.idx) <==> 0 <= disp <= 255)
            && (Resolvable(l, f.idx) ==> Resolved(l, f.idx) == 0xD000 + f.rn * 0x100 + disp)
  {
  }

  lemma JumpFits(l: Listing, l': Listing, kind: JumpKind, name: string)
    requires WellFormed(l)
    requires l' == l.(code := l.code + [Goto(kind, name)], fixups := l.fixups + [Fixup(|l.code|, name, kind)])
    ensures WellFormed(l')
  {
    hide LiteralsFit;
    LiteralsStay(l, l', Goto(kind, name));
    forall i | 0 <= i < |l'.code| && l'.code[i].Goto?
      ensures exists k :: 0 <= k < |l'.fixups| && l'.fixups[k].idx == i
    {
      if i < |l.code| {
        var k :| 0 <= k < |l.fixups| && l.fixups[k].idx == i;
        assert l'.fixups[k].idx == i;
      } else {
        assert l'.fixups[|l.fixups|].idx == i;
      }
    }
  }

  lemma PlainFits(l: Listing, l': Listing, ins: Ins)
    requires WellFormed(l) && !ins.Goto? && !ins.Literal?
    requires l' == l.(code := l.code + [ins])
    ensures WellFormed(l')
  {
    hide FixupsFit, LiteralsFit;
    FixupsStay(l, l', ins);
    LiteralsStay(l, l', ins);
  }

  lemma LiteralFits(l: Listing, l': Listing, rn: RegIndex, value: int)
    requires WellFormed(l)
    requires l' == l.(code := l.code + [Literal(rn, value)], literals := l.literals + [LiteralFixup(|l.code|, rn, value)])
    ensures WellFormed(l')
  {
    hide FixupsFit;
    FixupsStay(l, l', Literal(rn, value));
    forall i | 0 <= i < |l'.code| && l'.code[i].Literal?
      ensures exists k :: 0 <= k < |l'.literals| && l'.literals[k].idx == i
    {
      if i < |l.code| {
        var k :| 0 <= k < |l.literals| && l.literals[k].idx == i;
        assert l'.literals[k].idx == i;
      } else {
        assert l'.literals[|l.literals|].idx == i;
      }
    }
  }

  lemma FixupsStay(l: Listing, l': Listing, ins: Ins)
    requires FixupsFit(l.code, l.fixups) && l'.code == l.code + [ins] && !ins.Goto? && l'.fixups == l.fixups
    ensures FixupsFit(l'.code, l'.fixups)
  {
  }

  lemma LiteralsStay(l: Listing, l': Listing, ins: Ins)
    requires LiteralsFit(l.code, l.literals) && l'.code == l.code + [ins] && !ins.Literal? && l'.literals == l.literals
    ensures LiteralsFit(l'.code, l'.literals)
  {
  }

  lemma AllPatched(l: Listing, ws: seq<Half>)
    requires |ws| >= |l.code|
    requires forall i :: 0 <= i < |l.code| && (l.code[i].Goto? || l.code[i].Literal?) ==> Resolvable(l, i) && ws[i] == Resolved(l, i)
    requires forall i :: 0 <= i < |l.code| && !l.code[i].Goto? && !l.code[i].Literal? ==> ws[i] == Encode(l.code[i])
    ensures forall i :: 0 <= i < |l.code| ==> Resolvable(l, i)
    ensures forall i :: 0 <= i < |l.code| ==> ws[i] == Resolved(l, i)
  {
    hide Encode;
  }
}

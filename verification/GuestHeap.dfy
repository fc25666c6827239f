/** The guest heap behind the malloc family, `runtime/dc_native_overrides.cpp`. */
module GuestHeap {
  import opened Options
  import opened Words
  import opened Memory
  import opened LiteralPages

  const HEAP_START: int := 0x8C80_0000
  const HEAP_END: int := 0x8CE0_0000

  datatype Heap = Heap(next: Word, sizes: map<Word, Word>, mem: Mem)

  // ----- Alignment

  /** (next + mask) & ~mask in 32 bits, where mask is alignment - 1. */
  function RoundUp(next: Word, alignment: Word): Word
    requires alignment > 0
  {
    var x := Plus(next, alignment - 1);
    x - And(x, alignment - 1)
  }

  predicate ValidAlignment(a: Word) { a != 0 && And(a, a - 1) == 0 }

  ghost predicate PowerOfTwo(a: int) { exists k: nat :: a == Pow2(k) }

  lemma {:induction false} AndSelf(x: nat)
    ensures And(x, x) == x
    decreases x
  {
    if x > 0 {
      AndSelf(x / 2);
    }
  }

  lemma {:induction false} LowestBitAlone(a: nat)
    requires a > 0
    ensures And(a, a - 1) == 0 <==> PowerOfTwo(a)
    decreases a
  {
    var b := a / 2;
    if a == 1 {
      assert Pow2(0) == 1;
    } else if a % 2 == 0 {
      LowestBitAlone(b);
      assert (a - 1) / 2 == b - 1;
      if PowerOfTwo(b) {
        var k: nat :| b == Pow2(k);
        assert a == Pow2(k + 1);
      }
      if PowerOfTwo(a) {
        var k: nat :| a == Pow2(k);
        assert b == Pow2(k - 1);
      }
    } else {
      AndSelf(b);
      assert (a - 1) / 2 == b && (a - 1) % 2 == 0;
      forall k: nat
        ensures a != Pow2(k)
      {
        assert k == 0 || Pow2(k) == 2 * Pow2(k - 1);
      }
    }
  }

  /** The bit trick accepts the powers of two and nothing else. */
  lemma ValidAlignmentExact(a: Word)
    ensures ValidAlignment(a) <==> PowerOfTwo(a)
  {
    if a > 0 {
      LowestBitAlone(a);
    }
  }

  /** A valid alignment is at most 2^30, or 2^31. */
  lemma AlignmentRange(a: Word)
    requires PowerOfTwo(a)
    ensures a <= 0x4000_0000 || a == 0x8000_0000
  {
    Pow2Small();
    var k: nat :| a == Pow2(k);
    if k < 30 {
      Pow2Monotone(k, 30);
    } else if k > 31 {
      if k > 32 {
        Pow2Monotone(32, k);
      }
    }
  }

  /** Up to 2^30 the rounding finds the least aligned address that is not below next. */
  lemma RoundUpExact(next: Word, a: Word)
    requires PowerOfTwo(a) && a <= 0x4000_0000 && HEAP_START <= next <= HEAP_END
    ensures next <= RoundUp(next, a) < next + a && RoundUp(next, a) % a == 0
  {
    hide And, Pow2;
    var k: nat :| a == Pow2(k);
    var x := Plus(next, a - 1);
    WrapNear(next + a - 1);
    AndLowMask(x, k);
    assert RoundUp(next, a) == x - x % a;
    Multiple(x, a);
  }

  lemma Multiple(x: nat, a: nat)
    requires a > 0
    ensures x - x % a >= 0 && (x - x % a) % a == 0
  {
    var q, r := x / a, x % a;
    assert x == a * q + r;
    DivModUnique(a * q, a, q, 0);
  }

  /** At 2^31 it wraps to address 0. */
  lemma RoundUpWraps(next: Word)
    requires HEAP_START <= next <= HEAP_END
    ensures RoundUp(next, 0x8000_0000) == 0
  {
    hide Pow2, And;
    Pow2Small();
    AndLowMask(Plus(next, 0x7FFF_FFFF), 31);
    SmallAfterWrap(next);
  }

  lemma SmallAfterWrap(next: Word)
    requires HEAP_START <= next <= HEAP_END
    ensures Plus(next, 0x7FFF_FFFF) % 0x8000_0000 == Plus(next, 0x7FFF_FFFF)
  {
    WrapNear(next + 0x7FFF_FFFF);
  }

  // ----- The operations

  function AtLeastOne(size: Word): Word { if size == 0 then 1 else size }

  function Alloc(h: Heap, size: Word, alignment: Word): (Heap, Word)
    requires alignment > 0
  {
    var n := AtLeastOne(size);
    var a := RoundUp(h.next, alignment);
    if a > HEAP_END || n > HEAP_END - a then (h, 0)
    else (h.(next := a + n, sizes := h.sizes[a := n]), a)
  }

  function Read8(m: Mem, a: Word): Byte
    requires |m.ram| == RAM_SIZE
  {
    if SdramIndex(a, 1).Some? then m.ram[SdramIndex(a, 1).value] else 0
  }

  /** The copying loop of realloc, byte by byte upwards. */
  function CopyBytes(m: Mem, to: Word, from: Word, n: nat): (m': Mem)
    requires |m.ram| == RAM_SIZE
    ensures |m'.ram| == RAM_SIZE
  {
    if n == 0 then m
    else
      var m1 := CopyBytes(m, to, from, n - 1);
      Store(m1, Plus(to, n - 1), [Read8(m1, Plus(from, n - 1))])
  }

  function Zeros(n: nat): (s: seq<Byte>)
    ensures |s| == n && forall i :: 0 <= i < n ==> s[i] == 0
  {
    seq(n, _ => 0)
  }

  datatype Op =
    | Malloc(size: Word)
    | Calloc(count: Word, each: Word)
    | Realloc(p: Word, size: Word)
    | Free(p: Word)
    | Memalign(alignment: Word, size: Word)
    | GuestStore(a: Word, data: seq<Byte>)

  function Min(x: int, y: int): int { if x < y then x else y }

  function CallRealloc(h: Heap, p: Word, size: Word): (Heap, Word)
    requires |h.mem.ram| == RAM_SIZE
  {
    if p == 0 then Alloc(h, size, 8)
    else if size == 0 then (h.(sizes := h.sizes - {p}), 0)
    else
      var was := if p in h.sizes then h.sizes[p] else 0;
      var (h1, q) := Alloc(h, size, 8);
      if q == 0 then (h1, 0)
      else (h1.(mem := CopyBytes(h1.mem, q, p, Min(was, size)), sizes := h1.sizes - {p}), q)
  }

  /** The 64-bit product of calloc's arguments. */
  function Product(count: Word, each: Word): nat { count as int * each as int }

  function CallCalloc(h: Heap, count: Word, each: Word): (Heap, Word)
    requires |h.mem.ram| == RAM_SIZE
  {
    if Product(count, each) > 0xFFFF_FFFF then (h, 0)
    else
      var total := Product(count, each);
      var (h1, q) := Alloc(h, total, 8);
      (if q == 0 then h1 else h1.(mem := Bulk(h1.mem, q, Zeros(total))), q)
  }

  /** The new heap, and what the call returns in R0. */
  function Call(h: Heap, op: Op): (r: (Heap, Word))
    requires |h.mem.ram| == RAM_SIZE
    ensures |r.0.mem.ram| == RAM_SIZE
  {
    match op
    case Malloc(size) => Alloc(h, size, 8)
    case Calloc(count, each) => CallCalloc(h, count, each)
    case Realloc(p, size) => CallRealloc(h, p, size)
    case Free(p) => (h.(sizes := h.sizes - {p}), 0)
    case Memalign(alignment, size) => if ValidAlignment(alignment) then Alloc(h, size, alignment) else (h, 0)
    case GuestStore(a, data) => (h.(mem := Store(h.mem, a, data)), 0)
  }

  // ----- The invariant

  /** Live blocks are inside the heap, below the next free address, and disjoint. */
  ghost predicate ValidBlocks(next: Word, sizes: map<Word, Word>) {
    && HEAP_START <= next <= HEAP_END
    && (forall a :: a in sizes ==> HEAP_START <= a && sizes[a] >= 1 && a + sizes[a] <= next)
    && (forall a, b :: a in sizes && b in sizes && a < b ==> a + sizes[a] <= b)
  }

  ghost predicate Valid(h: Heap) {
    |h.mem.ram| == RAM_SIZE && ValidBlocks(h.next, h.sizes)
  }

  /** Whether an allocation has room. */
  ghost predicate Room(h: Heap, size: Word, alignment: Word)
    requires alignment > 0
  {
    RoundUp(h.next, alignment) + AtLeastOne(size) <= HEAP_END
  }

  /** An allocation succeeds exactly when it has room; its block is aligned, behind every block
      there ever was, and the other blocks stay. */
  lemma AllocFacts(h: Heap, size: Word, alignment: Word)
    requires Valid(h) && PowerOfTwo(alignment) && alignment <= 0x4000_0000
    ensures var (h1, q) := Alloc(h, size, alignment);
            && Valid(h1) && h1.mem == h.mem
            && (q != 0 <==> Room(h, size, alignment))
            && (q == 0 ==> h1 == h)
            && (q != 0 ==> q % alignment == 0 && h.next <= q < h.next + alignment && q !in h.sizes)
            && (q != 0 ==> h1.sizes == h.sizes[q := AtLeastOne(size)] && h1.next == q + AtLeastOne(size))
  {
    hide RoundUp;
    RoundUpExact(h.next, alignment);
  }

  lemma EightIsPower()
    ensures PowerOfTwo(8)
  {
    assert Pow2(3) == 8;
  }

  /** With alignment 2^31 the call always returns 0, and it leaves the heap valid if and only if the
      size does not fit below the end of the heap; otherwise it has moved the heap. */
  lemma HugeAlignmentExact(h: Heap, size: Word)
    requires Valid(h)
    ensures var (h1, q) := Call(h, Memalign(0x8000_0000, size));
            && q == 0
            && (Valid(h1) <==> AtLeastOne(size) > HEAP_END)
            && (AtLeastOne(size) <= HEAP_END ==> 0 in h1.sizes && h1.next == AtLeastOne(size))
  {
    Pow2Small();
    ValidAlignmentExact(0x8000_0000);
    assert PowerOfTwo(0x8000_0000);
    RoundUpWraps(h.next);
    var h1 := Call(h, Memalign(0x8000_0000, size)).0;
    if AtLeastOne(size) <= HEAP_END {
      assert 0 in h1.sizes;
    }
  }

  // ----- Requests

  datatype Request = Request(size: Word, alignment: Word)

  /** The block a call asks for, if it asks for one. */
  ghost function RequestOf(op: Op): Option<Request> {
    match op
    case Malloc(size) => Some(Request(size, 8))
    case Calloc(count, each) =>
      if count as int * each as int <= 0xFFFF_FFFF then Some(Request(count as int * each as int, 8)) else None
    case Realloc(p, size) => if p != 0 && size == 0 then None else Some(Request(size, 8))
    case Memalign(alignment, size) => if PowerOfTwo(alignment) then Some(Request(size, alignment)) else None
    case _ => None
  }

  /** The block a call gives up when it returns q. */
  function GivenUp(op: Op, q: Word): set<Word> {
    match op
    case Free(p) => {p}
    case Realloc(p, size) => if p != 0 && (size == 0 || q != 0) then {p} else {}
    case _ => {}
  }

  /** Each call of the family in terms of its request: it succeeds exactly when it asks for something
      that fits, the new block is the next aligned one and holds what was asked, at least one byte, and
      apart from it and the block given up the live blocks are as they were. */
  lemma CallExact(h: Heap, op: Op)
    requires Valid(h) && Allowed(op)
    ensures var (h1, q) := Call(h, op); var r := RequestOf(op);
            && (r.Some? ==> r.value.alignment > 0)
            && (q != 0 <==> r.Some? && Room(h, r.value.size, r.value.alignment))
            && (q == 0 ==> h1.next == h.next && h1.sizes == h.sizes - GivenUp(op, q))
            && (q != 0 ==>
                  && q % r.value.alignment == 0 && h.next <= q < h.next + r.value.alignment && q !in h.sizes
                  && h1.next == q + AtLeastOne(r.value.size)
                  && h1.sizes == h.sizes[q := AtLeastOne(r.value.size)] - GivenUp(op, q))
  {
    hide Alloc, RoundUp, CopyBytes, Store, Bulk, And, ValidBlocks, Room;
    EightIsPower();
    match op
    case Malloc(size) => AllocFacts(h, size, 8);
    case Calloc(count, each) =>
      if Product(count, each) <= 0xFFFF_FFFF {
        AllocFacts(h, Product(count, each), 8);
      }
    case Realloc(p, size) => AllocFacts(h, size, 8);
    case Free(p) =>
    case Memalign(alignment, size) =>
      ValidAlignmentExact(alignment);
      if ValidAlignment(alignment) {
        AllocFacts(h, size, alignment);
      }
    case GuestStore(b, data) =>
  }

  // ----- Bytes

  /** Heap addresses below the end of the 16 MiB image map to consecutive SDRAM offsets. */
  function Offset(a: int): int { a - 0x8C00_0000 }

  lemma HeapIndex(a: Word, n: nat)
    requires HEAP_START <= a && a + n <= HEAP_END
    ensures 0 <= Offset(a) && Offset(a) + n <= RAM_SIZE && SdramIndex(a, n) == Some(Offset(a))
  {
  }

  function Bytes(m: Mem, a: Word, n: nat): seq<Byte>
    requires |m.ram| == RAM_SIZE && HEAP_START <= a && a + n <= HEAP_END
  {
    m.ram[Offset(a)..Offset(a) + n]
  }

  /** Between disjoint blocks the loop copies the bytes as they were, and nothing else changes. */
  lemma {:induction false} CopyFacts(m: Mem, to: Word, from: Word, n: nat)
    requires |m.ram| == RAM_SIZE && HEAP_START <= from && from + n <= to && to + n <= HEAP_END
    ensures CopyBytes(m, to, from, n).ram == Replace(m.ram, Offset(to), Bytes(m, from, n))
  {
    hide Store, SdramIndex;
    if n > 0 {
      CopyFacts(m, to, from, n - 1);
      NearPlus(to, n - 1);
      NearPlus(from, n - 1);
      var m1 := CopyBytes(m, to, from, n - 1);
      CopyOne(m1, to + (n - 1), from + (n - 1));
      assert m1.ram[Offset(from) + n - 1] == m.ram[Offset(from) + n - 1];
    }
  }

  lemma CopyOne(m: Mem, to: Word, from: Word)
    requires |m.ram| == RAM_SIZE && HEAP_START <= from < to < HEAP_END
    ensures Store(m, to, [Read8(m, from)]).ram == m.ram[Offset(to) := m.ram[Offset(from)]]
  {
    HeapIndex(to, 1);
    HeapIndex(from, 1);
  }

  lemma NearPlus(a: Word, k: nat)
    requires a + k <= HEAP_END
    ensures Plus(a, k) == a + k
  {
    WrapNear(a + k);
  }

  // ----- What each operation keeps

  /** The alignments that do not wrap. */
  predicate Allowed(op: Op) { op.Memalign? && ValidAlignment(op.alignment) ==> op.alignment <= 0x4000_0000 }

  ghost predicate Releases(op: Op, a: Word) {
    (op.Free? && op.p == a) || (op.Realloc? && op.p == a)
  }

  /** A store of the guest itself into the block at a. */
  ghost predicate Hits(op: Op, a: Word, size: Word) {
    op.GuestStore? && SdramIndex(op.a, |op.data|).Some? &&
    var i := SdramIndex(op.a, |op.data|).value; i < Offset(a) + size && Offset(a) < i + |op.data|
  }

  lemma CallKeepsValid(h: Heap, op: Op)
    requires Valid(h) && Allowed(op)
    ensures Valid(Call(h, op).0)
  {
    hide Alloc, RoundUp, CopyBytes, Store, Bulk, ValidBlocks;
    EightIsPower();
    match op
    case Malloc(size) => AllocFacts(h, size, 8);
    case Calloc(count, each) =>
      if Product(count, each) <= 0xFFFF_FFFF {
        AllocFacts(h, Product(count, each), 8);
      }
    case Realloc(p, size) =>
      AllocFacts(h, size, 8);
      Erase(h.next, h.sizes, p);
      Erase(Alloc(h, size, 8).0.next, Alloc(h, size, 8).0.sizes, p);
    case Free(p) => Erase(h.next, h.sizes, p);
    case Memalign(alignment, size) =>
      ValidAlignmentExact(alignment);
      if ValidAlignment(alignment) {
        AllocFacts(h, size, alignment);
      }
    case GuestStore(a, data) =>
  }

  lemma Erase(next: Word, sizes: map<Word, Word>, p: Word)
    requires ValidBlocks(next, sizes)
    ensures ValidBlocks(next, sizes - {p})
  {
  }

  /** Realloc of a live block: on success the old one is gone and the new one starts with the first
      min(old, new) bytes of it; on failure nothing at all has changed. */
  lemma ReallocKeepsBytes(h: Heap, p: Word, size: Word)
    requires Valid(h) && p in h.sizes && size > 0
    ensures var (h1, q) := Call(h, Realloc(p, size));
            && (q == 0 <==> !Room(h, size, 8)) && (q == 0 ==> h1 == h)
            && (q != 0 ==> q % 8 == 0 && h1.sizes == (h.sizes - {p})[q := size] && h.next <= q && q + size <= HEAP_END)
    ensures var (h1, q) := Call(h, Realloc(p, size)); var n := Min(h.sizes[p], size);
            q != 0 ==> Bytes(h1.mem, q, n) == Bytes(h.mem, p, n)
  {
    hide Alloc, RoundUp, CopyBytes, Room;
    EightIsPower();
    AllocFacts(h, size, 8);
    var q := Alloc(h, size, 8).1;
    var n := Min(h.sizes[p], size);
    if q != 0 {
      CopyFacts(h.mem, q, p, n);
      HeapIndex(q, n);
    }
  }

  /** Calloc succeeds exactly when the product fits 32 bits and there is room, and its block is zero. */
  lemma CallocZeroes(h: Heap, count: Word, each: Word)
    requires Valid(h)
    ensures var (h1, q) := Call(h, Calloc(count, each)); var total := Product(count, each);
            && (q != 0 <==> total <= 0xFFFF_FFFF && Room(h, total, 8))
            && (q != 0 ==> q % 8 == 0 && h.next <= q && q + total <= HEAP_END && Bytes(h1.mem, q, total) == Zeros(total))
  {
    hide Alloc, RoundUp, Room;
    EightIsPower();
    var total := Product(count, each);
    if total <= 0xFFFF_FFFF {
      AllocFacts(h, total, 8);
      var q := Alloc(h, total, 8).1;
      if q != 0 {
        HeapIndex(q, total);
      }
    }
  }

  /** No operation touches a live block that it does not release and the guest does not store into. */
  lemma OthersUntouched(h: Heap, op: Op, a: Word)
    requires Valid(h) && Allowed(op) && a in h.sizes && !Releases(op, a) && !Hits(op, a, h.sizes[a])
    ensures var h1 := Call(h, op).0;
            a in h1.sizes && h1.sizes[a] == h.sizes[a] && Bytes(h1.mem, a, h.sizes[a]) == Bytes(h.mem, a, h.sizes[a])
  {
    hide Alloc, RoundUp, CopyBytes;
    EightIsPower();
    match op
    case Malloc(size) => AllocFacts(h, size, 8);
    case Calloc(count, each) => CallocAside(h, count, each, a);
    case Realloc(p, size) => ReallocAside(h, p, size, a);
    case Free(p) =>
    case Memalign(alignment, size) =>
      ValidAlignmentExact(alignment);
      if ValidAlignment(alignment) {
        AllocFacts(h, size, alignment);
      }
    case GuestStore(b, data) => HeapIndex(a, h.sizes[a]);
  }

  lemma CallocAside(h: Heap, count: Word, each: Word, a: Word)
    requires Valid(h) && a in h.sizes
    ensures var h1 := Call(h, Calloc(count, each)).0;
            a in h1.sizes && h1.sizes[a] == h.sizes[a] && Bytes(h1.mem, a, h.sizes[a]) == Bytes(h.mem, a, h.sizes[a])
  {
    hide Alloc, RoundUp;
    EightIsPower();
    var total := Product(count, each);
    if total <= 0xFFFF_FFFF {
      AllocFacts(h, total, 8);
      var q := Alloc(h, total, 8).1;
      if q != 0 {
        HeapIndex(q, total);
      }
    }
  }

  lemma ReallocAside(h: Heap, p: Word, size: Word, a: Word)
    requires Valid(h) && a in h.sizes && a != p
    ensures var h1 := Call(h, Realloc(p, size)).0;
            a in h1.sizes && h1.sizes[a] == h.sizes[a] && Bytes(h1.mem, a, h.sizes[a]) == Bytes(h.mem, a, h.sizes[a])
  {
    hide Alloc, RoundUp, CopyBytes, SdramIndex, Store, Bulk, And;
    EightIsPower();
    AllocFacts(h, size, 8);
    var q := Alloc(h, size, 8).1;
    if q != 0 && p in h.sizes && size > 0 {
      CopyAside(h.mem, q, p, Min(h.sizes[p], size), a, h.sizes[a]);
    } else if p !in h.sizes {
      CopyNothing(h.mem, q, p);
    }
  }

  /** A copy into a later block leaves the bytes of an earlier one. */
  lemma CopyAside(m: Mem, to: Word, from: Word, n: nat, a: Word, size: nat)
    requires |m.ram| == RAM_SIZE && HEAP_START <= from && from + n <= to && to + n <= HEAP_END
    requires HEAP_START <= a && a + size <= to
    ensures Bytes(CopyBytes(m, to, from, n), a, size) == Bytes(m, a, size)
  {
    hide CopyBytes;
    CopyFacts(m, to, from, n);
  }

  lemma CopyNothing(m: Mem, to: Word, from: Word)
    requires |m.ram| == RAM_SIZE
    ensures CopyBytes(m, to, from, 0) == m
  {
  }

  // ----- Traces

  function Run(h: Heap, ops: seq<Op>): (h': Heap)
    requires |h.mem.ram| == RAM_SIZE
    ensures |h'.mem.ram| == RAM_SIZE
    decreases |ops|
  {
    if ops == [] then h else Run(Call(h, ops[0]).0, ops[1..])
  }

  /** Blocks stay disjoint and inside the heap through every trace. */
  lemma {:induction false} RunKeepsValid(h: Heap, ops: seq<Op>)
    requires Valid(h) && forall i :: 0 <= i < |ops| ==> Allowed(ops[i])
    ensures Valid(Run(h, ops)) && Run(h, ops).next >= h.next
    decreases |ops|
  {
    if ops != [] {
      CallKeepsValid(h, ops[0]);
      NextGrows(h, ops[0]);
      RunKeepsValid(Call(h, ops[0]).0, ops[1..]);
    }
  }

  lemma NextGrows(h: Heap, op: Op)
    requires Valid(h) && Allowed(op)
    ensures Call(h, op).0.next >= h.next
  {
    hide Alloc, RoundUp, CopyBytes;
    EightIsPower();
    match op
    case Malloc(size) => AllocFacts(h, size, 8);
    case Calloc(count, each) =>
      if Product(count, each) <= 0xFFFF_FFFF {
        AllocFacts(h, Product(count, each), 8);
      }
    case Realloc(p, size) => AllocFacts(h, size, 8);
    case Free(p) =>
    case Memalign(alignment, size) =>
      ValidAlignmentExact(alignment);
      if ValidAlignment(alignment) {
        AllocFacts(h, size, alignment);
      }
    case GuestStore(b, data) =>
  }

  /** What was asked for at each address, op by op. */
  ghost function Asked(h: Heap, asked: map<Word, Request>, op: Op): map<Word, Request>
    requires |h.mem.ram| == RAM_SIZE
  {
    var q := Call(h, op).1;
    if q == 0 || RequestOf(op).None? then asked else asked[q := RequestOf(op).value]
  }

  ghost function AskedInRun(h: Heap, asked: map<Word, Request>, ops: seq<Op>): map<Word, Request>
    requires |h.mem.ram| == RAM_SIZE
    decreases |ops|
  {
    if ops == [] then asked else AskedInRun(Call(h, ops[0]).0, Asked(h, asked, ops[0]), ops[1..])
  }

  /** Every live block has the alignment and the size it was asked for. */
  ghost predicate Honoured(sizes: map<Word, Word>, asked: map<Word, Request>) {
    forall a :: a in sizes ==>
      a in asked && asked[a].alignment > 0 && a % asked[a].alignment == 0 && sizes[a] == AtLeastOne(asked[a].size)
  }

  lemma CallHonours(h: Heap, asked: map<Word, Request>, op: Op)
    requires Valid(h) && Allowed(op) && Honoured(h.sizes, asked)
    ensures Honoured(Call(h, op).0.sizes, Asked(h, asked, op))
  {
    hide Call, RequestOf, ValidBlocks, Room, AtLeastOne;
    CallExact(h, op);
  }

  /** Through every trace each live block is aligned as asked and holds what was asked, and the extents
      asked for are disjoint and inside the heap. */
  lemma {:induction false} RunHonours(h: Heap, asked: map<Word, Request>, ops: seq<Op>)
    requires Valid(h) && Honoured(h.sizes, asked) && forall i :: 0 <= i < |ops| ==> Allowed(ops[i])
    ensures var live, wanted := Run(h, ops).sizes, AskedInRun(h, asked, ops);
            && Honoured(live, wanted)
            && (forall a :: a in live ==> a + wanted[a].size <= HEAP_END)
            && (forall a, b :: a in live && b in live && a < b ==> a + wanted[a].size <= b)
    decreases |ops|
  {
    hide Asked, Call, Allowed, RequestOf;
    if ops != [] {
      CallKeepsValid(h, ops[0]);
      CallHonours(h, asked, ops[0]);
      RunHonours(Call(h, ops[0]).0, Asked(h, asked, ops[0]), ops[1..]);
    }
  }

  /** A block that is neither released nor written keeps its size and its bytes through any trace of
      other heap calls and stores. */
  lemma {:induction false} BlockSurvives(h: Heap, ops: seq<Op>, a: Word)
    requires Valid(h) && a in h.sizes && forall i :: 0 <= i < |ops| ==> Allowed(ops[i])
    requires forall i :: 0 <= i < |ops| ==> !Releases(ops[i], a) && !Hits(ops[i], a, h.sizes[a])
    ensures var h1 := Run(h, ops);
            a in h1.sizes && h1.sizes[a] == h.sizes[a] && Bytes(h1.mem, a, h.sizes[a]) == Bytes(h.mem, a, h.sizes[a])
    decreases |ops|
  {
    if ops != [] {
      OthersUntouched(h, ops[0], a);
      CallKeepsValid(h, ops[0]);
      BlockSurvives(Call(h, ops[0]).0, ops[1..], a);
    }
  }

  // ----- The runtime's heap

  class GuestHeap {
    var next: Word
    var sizes: map<Word, Word>
    const mem: MainRam

    ghost predicate Ready() { mem.Valid() }

    ghost function Abstract(): (h: Heap)
      requires Ready()
      reads this, mem.ram, mem.literalDirty
      ensures |h.mem.ram| == RAM_SIZE
    {
      Heap(next, sizes, mem.Abstract())
    }

    constructor (ram: MainRam)
      requires ram.Valid()
      ensures mem == ram && Ready() && Valid(Abstract())
    {
      next := HEAP_START;
      sizes := map[];
      mem := ram;
    }

    method HeapAlloc(size: Word, alignment: Word) returns (address: Word)
      requires Ready() && alignment > 0
      modifies this
      ensures Abstract() == Alloc(old(Abstract()), size, alignment).0
      ensures address == Alloc(old(Abstract()), size, alignment).1
    {
      var n := size;
      if n == 0 {
        n := 1;
      }
      var mask := alignment - 1;
      var x := Plus(next, mask);
      address := x - And(x, mask);
      if address > HEAP_END || n > HEAP_END - address {
        return 0;
      }
      next := address + n;
      sizes := sizes[address := n];
    }

    method NativeMalloc(size: Word) returns (r0: Word)
      requires Ready()
      modifies this
      ensures (Abstract(), r0) == Call(old(Abstract()), Malloc(size))
    {
      r0 := HeapAlloc(size, 8);
    }

    method NativeCalloc(count: Word, each: Word) returns (r0: Word)
      requires Ready()
      modifies this, mem.ram, mem.literalDirty
      ensures (Abstract(), r0) == Call(old(Abstract()), Calloc(count, each))
    {
      hide Alloc, Bulk, Product;
      var total := Product(count, each);
      if total > 0xFFFF_FFFF {
        return 0;
      }
      r0 := HeapAlloc(total, 8);
      if r0 != 0 {
        mem.LoadBytes(r0, Zeros(total));
      }
    }

    method NativeFree(p: Word)
      requires Ready()
      modifies this
      ensures Abstract() == Call(old(Abstract()), Free(p)).0
    {
      sizes := sizes - {p};
    }

    method NativeRealloc(p: Word, size: Word) returns (r0: Word)
      requires Ready()
      modifies this, mem.ram, mem.literalDirty
      ensures (Abstract(), r0) == Call(old(Abstract()), Realloc(p, size))
    {
      if p == 0 {
        r0 := HeapAlloc(size, 8);
        return;
      }
      if size == 0 {
        sizes := sizes - {p};
        return 0;
      }
      var was := if p in sizes then sizes[p] else 0;
      r0 := HeapAlloc(size, 8);
      if r0 == 0 {
        return;
      }
      var n := Min(was, size);
      ghost var start := mem.Abstract();
      for i := 0 to n
        modifies mem.ram, mem.literalDirty
        invariant mem.Abstract() == CopyBytes(start, r0, p, i)
      {
        var b := mem.Read8(Plus(p, i));
        mem.Write8(Plus(r0, i), b);
      }
      sizes := sizes - {p};
    }

    method NativeMemalign(alignment: Word, size: Word) returns (r0: Word)
      requires Ready()
      modifies this
      ensures (Abstract(), r0) == Call(old(Abstract()), Memalign(alignment, size))
    {
      if alignment != 0 && And(alignment, alignment - 1) == 0 {
        r0 := HeapAlloc(size, alignment);
      } else {
        r0 := 0;
      }
    }
  }
}

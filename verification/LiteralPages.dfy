/** Literals baked into recompiled code, and the dirty pages that say when to read RAM instead. */
module LiteralPages {
  import opened Options
  import opened Words
  import opened Memory

  const PAGES: nat := 0x1000

  /** Where `width` bytes at a guest address lie in SDRAM: area 3 of any alias, all 16 MiB mirrors,
      and not running past the end of a mirror. */
  function SdramIndex(a: Word, width: nat): (i: Option<nat>)
    ensures i.Some? ==> i.value + width <= RAM_SIZE
  {
    if 0x0C00_0000 <= a % 0x2000_0000 < 0x1000_0000 && MainRamOffset(a) + width <= RAM_SIZE
    then Some(MainRamOffset(a)) else None
  }

  function Replace(ram: seq<Byte>, p: nat, data: seq<Byte>): (ram': seq<Byte>)
    requires p + |data| <= |ram|
    ensures |ram'| == |ram|
    ensures forall i :: 0 <= i < |ram| ==> ram'[i] == if p <= i < p + |data| then data[i - p] else ram[i]
  {
    ram[..p] + data + ram[p + |data|..]
  }

  function Bytes16(v: Half): seq<Byte> { [v % 0x100, v / 0x100] }

  function Bytes32(v: Word): seq<Byte> { [v % 0x100, v / 0x100 % 0x100, v / 0x1_0000 % 0x100, v / 0x100_0000] }

  /** A guest store of one, two or four bytes: the pages of its first and last byte become dirty. */
  function Store(m: Mem, a: Word, data: seq<Byte>): (m': Mem)
    requires |m.ram| == RAM_SIZE
    ensures |m'.ram| == RAM_SIZE
  {
    var i := SdramIndex(a, |data|);
    if i.None? || data == [] then m
    else Mem(Replace(m.ram, i.value, data), m.dirty + {i.value / PAGE_SIZE, (i.value + |data| - 1) / PAGE_SIZE})
  }

  function StoreEach(m: Mem, a: Word, data: seq<Byte>): (m': Mem)
    requires |m.ram| == RAM_SIZE
    ensures |m'.ram| == RAM_SIZE
  {
    if data == [] then m
    else Store(StoreEach(m, a, data[..|data| - 1]), Plus(a, |data| - 1), [data[|data| - 1]])
  }

  /** A bulk copy: straight into SDRAM without marking any page, or byte by byte where it does not
      fit one mirror. */
  function Bulk(m: Mem, a: Word, data: seq<Byte>): (m': Mem)
    requires |m.ram| == RAM_SIZE
    ensures |m'.ram| == RAM_SIZE
  {
    var i := SdramIndex(a, |data|);
    if data == [] then m
    else if i.Some? then m.(ram := Replace(m.ram, i.value, data))
    else StoreEach(m, a, data)
  }

  /** The literal load: baked while both pages are clean, RAM once one is dirty. */
  function Literal32(m: Mem, a: Word, baked: Word): Word
    requires |m.ram| == RAM_SIZE
  {
    var i := SdramIndex(a, 4);
    if i.Some? && (i.value / PAGE_SIZE in m.dirty || (i.value + 3) / PAGE_SIZE in m.dirty)
    then LoadWord(m.ram, i.value) else baked
  }

  function Literal16(m: Mem, a: Word, baked: Half): Half
    requires |m.ram| == RAM_SIZE
  {
    var i := SdramIndex(a, 2);
    if i.Some? && (i.value / PAGE_SIZE in m.dirty || (i.value + 1) / PAGE_SIZE in m.dirty)
    then LoadHalf(m.ram, i.value) else baked
  }

  // ----- Coherence

  /** Every byte that is no longer what was baked lies on a dirty page. */
  ghost predicate Coherent(m: Mem, image: seq<Byte>)
    requires |m.ram| == |image| == RAM_SIZE
  {
    forall i :: 0 <= i < RAM_SIZE ==> m.ram[i] == image[i] || i / PAGE_SIZE in m.dirty
  }

  /** Baked-when-clean or RAM-when-dirty is a plain RAM read, for literals anywhere in SDRAM, also
      unaligned ones that straddle two pages. */
  lemma LiteralsReadRam(m: Mem, image: seq<Byte>, a: Word)
    requires |m.ram| == |image| == RAM_SIZE && Coherent(m, image)
    ensures SdramIndex(a, 4).Some? ==> Literal32(m, a, LoadWord(image, SdramIndex(a, 4).value)) == LoadWord(m.ram, SdramIndex(a, 4).value)
    ensures SdramIndex(a, 2).Some? ==> Literal16(m, a, LoadHalf(image, SdramIndex(a, 2).value)) == LoadHalf(m.ram, SdramIndex(a, 2).value)
  {
    hide LoadWord, LoadHalf;
    var i := SdramIndex(a, 4);
    if i.Some? && i.value / PAGE_SIZE !in m.dirty && (i.value + 3) / PAGE_SIZE !in m.dirty {
      forall k | i.value <= k < i.value + 4
        ensures m.ram[k] == image[k]
      {
        BetweenPages(i.value, 4, k);
      }
      SameWord(m.ram, image, i.value);
    }
    var j := SdramIndex(a, 2);
    if j.Some? && j.value / PAGE_SIZE !in m.dirty && (j.value + 1) / PAGE_SIZE !in m.dirty {
      SameHalf(m.ram, image, j.value);
    }
  }

  lemma BetweenPages(p: nat, width: nat, k: nat)
    requires p <= k < p + width && width <= 4
    ensures k / PAGE_SIZE == p / PAGE_SIZE || k / PAGE_SIZE == (p + width - 1) / PAGE_SIZE
  {
  }

  lemma SameWord(ram: seq<Byte>, image: seq<Byte>, p: nat)
    requires p + 4 <= |ram| == |image| && forall k :: p <= k < p + 4 ==> ram[k] == image[k]
    ensures LoadWord(ram, p) == LoadWord(image, p)
  {
  }

  lemma SameHalf(ram: seq<Byte>, image: seq<Byte>, p: nat)
    requires p + 2 <= |ram| == |image| && ram[p] == image[p] && ram[p + 1] == image[p + 1]
    ensures LoadHalf(ram, p) == LoadHalf(image, p)
  {
  }

  /** The cached address of SDRAM offset p. */
  function Cached(p: nat): Word
    requires p < RAM_SIZE
  {
    0x8C00_0000 + p
  }

  ghost predicate AllLiteralsAgree(m: Mem, image: seq<Byte>)
    requires |m.ram| == |image| == RAM_SIZE
  {
    forall q: nat :: q < 0x40_0000 ==> Literal32(m, Cached(4 * q), LoadWord(image, 4 * q)) == LoadWord(m.ram, 4 * q)
  }

  lemma CachedIndex(p: nat, width: nat)
    requires p + width <= RAM_SIZE && p < RAM_SIZE
    ensures SdramIndex(Cached(p), width) == Some(p)
  {
  }

  /** Coherence is not stronger than it has to be: it holds if and only if every aligned literal of
      the cached alias reads RAM. */
  lemma CoherentIffLiteralsAgree(m: Mem, image: seq<Byte>)
    requires |m.ram| == |image| == RAM_SIZE
    ensures Coherent(m, image) <==> AllLiteralsAgree(m, image)
  {
    hide LoadWord, LoadHalf;
    if Coherent(m, image) {
      forall q: nat | q < 0x40_0000
        ensures Literal32(m, Cached(4 * q), LoadWord(image, 4 * q)) == LoadWord(m.ram, 4 * q)
      {
        CachedIndex(4 * q, 4);
        LiteralsReadRam(m, image, Cached(4 * q));
      }
    }
    if AllLiteralsAgree(m, image) {
      forall i | 0 <= i < RAM_SIZE && i / PAGE_SIZE !in m.dirty
        ensures m.ram[i] == image[i]
      {
        var q := i / 4;
        CachedIndex(4 * q, 4);
        SamePage(q, i);
        assert Literal32(m, Cached(4 * q), LoadWord(image, 4 * q)) == LoadWord(image, 4 * q);
        WordDeterminesBytes(m.ram, image, 4 * q);
      }
    }
  }

  lemma SamePage(q: nat, i: nat)
    requires q == i / 4
    ensures 4 * q / PAGE_SIZE == i / PAGE_SIZE == (4 * q + 3) / PAGE_SIZE
  {
  }

  lemma WordDeterminesBytes(ram: seq<Byte>, image: seq<Byte>, p: nat)
    requires p + 4 <= |ram| == |image| && LoadWord(ram, p) == LoadWord(image, p)
    ensures forall k :: p <= k < p + 4 ==> ram[k] == image[k]
  {
    FourDigits(ram[p] as int, ram[p + 1] as int, ram[p + 2] as int, ram[p + 3] as int,
               image[p] as int, image[p + 1] as int, image[p + 2] as int, image[p + 3] as int);
  }

  lemma FourDigits(a: int, b: int, c: int, d: int, e: int, f: int, g: int, h: int)
    requires 0 <= a < 0x100 && 0 <= b < 0x100 && 0 <= c < 0x100 && 0 <= e < 0x100 && 0 <= f < 0x100 && 0 <= g < 0x100
    requires a + 0x100 * b + 0x1_0000 * c + 0x100_0000 * d == e + 0x100 * f + 0x1_0000 * g + 0x100_0000 * h
    ensures a == e && b == f && c == g && d == h
  {
    var cd, gh := c + 0x100 * d, g + 0x100 * h;
    var bd, fh := b + 0x100 * cd, f + 0x100 * gh;
    DivModUnique(a + 0x100 * bd, 0x100, bd, a);
    DivModUnique(a + 0x100 * bd, 0x100, fh, e);
    DivModUnique(bd, 0x100, cd, b);
    DivModUnique(bd, 0x100, gh, f);
    DivModUnique(cd, 0x100, d, c);
    DivModUnique(cd, 0x100, h, g);
  }

  // ----- What each operation does to coherence

  ghost predicate Guest(data: seq<Byte>) { |data| == 1 || |data| == 2 || |data| == 4 }

  lemma StoreCoherent(m: Mem, a: Word, data: seq<Byte>, image: seq<Byte>)
    requires |m.ram| == |image| == RAM_SIZE && Coherent(m, image) && Guest(data)
    ensures Coherent(Store(m, a, data), image)
  {
    var i := SdramIndex(a, |data|);
    if i.Some? {
      var m' := Store(m, a, data);
      forall k | 0 <= k < RAM_SIZE
        ensures m'.ram[k] == image[k] || k / PAGE_SIZE in m'.dirty
      {
        if i.value <= k < i.value + |data| {
          BetweenPages(i.value, |data|, k);
        }
      }
    }
  }

  lemma {:induction false} StoreEachCoherent(m: Mem, a: Word, data: seq<Byte>, image: seq<Byte>)
    requires |m.ram| == |image| == RAM_SIZE && Coherent(m, image)
    ensures Coherent(StoreEach(m, a, data), image)
  {
    if data != [] {
      StoreEachCoherent(m, a, data[..|data| - 1], image);
      StoreCoherent(StoreEach(m, a, data[..|data| - 1]), Plus(a, |data| - 1), [data[|data| - 1]], image);
    }
  }

  // ----- Where the bytes of a bulk copy land

  /** Byte i of n bytes from a on goes to p, and no later one does. */
  ghost predicate LastAt(a: Word, n: nat, i: nat, p: nat) {
    i < n && SdramIndex(Plus(a, i), 1) == Some(p) && forall k :: i < k < n ==> SdramIndex(Plus(a, k), 1) != Some(p)
  }

  ghost predicate Missed(a: Word, n: nat, p: nat) { forall i :: 0 <= i < n ==> SdramIndex(Plus(a, i), 1) != Some(p) }

  ghost predicate Landed(before: seq<Byte>, a: Word, data: seq<Byte>, after: seq<Byte>) {
    && |before| == |after| == RAM_SIZE
    && (forall i: nat, p: nat :: LastAt(a, |data|, i, p) && p < RAM_SIZE ==> after[p] == data[i])
    && (forall p: nat :: p < RAM_SIZE && Missed(a, |data|, p) ==> after[p] == before[p])
  }

  /** Inside one mirror or across its end, every byte lands at its address; where mirrors make two bytes
      meet, the later one stays; nothing else changes. */
  lemma BulkLands(m: Mem, a: Word, data: seq<Byte>)
    requires |m.ram| == RAM_SIZE
    ensures Landed(m.ram, a, data, Bulk(m, a, data).ram)
  {
    hide SdramIndex;
    var q := SdramIndex(a, |data|);
    if data != [] && q.Some? {
      forall k | 0 <= k < |data|
        ensures SdramIndex(Plus(a, k), 1) == Some(q.value + k)
      {
        InOneMirror(a, |data|, k);
      }
      forall p: nat | q.value <= p < q.value + |data|
        ensures !Missed(a, |data|, p)
      {
        assert SdramIndex(Plus(a, p - q.value), 1) == Some(p);
      }
    } else {
      EachLands(m, a, data);
    }
  }

  lemma InOneMirror(a: Word, n: nat, k: nat)
    requires SdramIndex(a, n).Some? && k < n
    ensures SdramIndex(Plus(a, k), 1) == Some(SdramIndex(a, n).value + k)
  {
    var alias, low := a / 0x2000_0000, a % 0x2000_0000;
    var mirror, off := (low - 0x0C00_0000) / RAM_SIZE, (low - 0x0C00_0000) % RAM_SIZE;
    assert a + k == 0x2000_0000 * alias + (low + k) && low - 0x0C00_0000 + k == RAM_SIZE * mirror + (off + k);
    DivModUnique(a + k, 0x2000_0000, alias, low + k);
    DivModUnique(low - 0x0C00_0000 + k, RAM_SIZE, mirror, off + k);
  }

  lemma {:induction false} EachLands(m: Mem, a: Word, data: seq<Byte>)
    requires |m.ram| == RAM_SIZE
    ensures Landed(m.ram, a, data, StoreEach(m, a, data).ram)
    decreases |data|
  {
    hide SdramIndex;
    if data != [] {
      var n := |data| - 1;
      EachLands(m, a, data[..n]);
      var mid, after := StoreEach(m, a, data[..n]), StoreEach(m, a, data);
      forall i: nat, p: nat | LastAt(a, |data|, i, p) && p < RAM_SIZE
        ensures after.ram[p] == data[i]
      {
        if i < n {
          assert LastAt(a, n, i, p) && SdramIndex(Plus(a, n), 1) != Some(p);
        }
      }
      forall p: nat | p < RAM_SIZE && Missed(a, |data|, p)
        ensures after.ram[p] == m.ram[p]
      {
        assert Missed(a, n, p);
      }
    }
  }

  /** A bulk copy is harmless when each byte it puts on a clean page is the baked byte. */
  ghost predicate Harmless(m: Mem, a: Word, data: seq<Byte>, image: seq<Byte>)
    requires |m.ram| == |image| == RAM_SIZE
  {
    var i := SdramIndex(a, |data|);
    i.Some? ==> forall k :: 0 <= k < |data| ==> data[k] == image[i.value + k] || (i.value + k) / PAGE_SIZE in m.dirty
  }

  /** Bulk copies mark nothing, so they keep coherence exactly when they are harmless. */
  lemma BulkExact(m: Mem, a: Word, data: seq<Byte>, image: seq<Byte>)
    requires |m.ram| == |image| == RAM_SIZE && Coherent(m, image)
    ensures Coherent(Bulk(m, a, data), image) <==> Harmless(m, a, data, image)
  {
    var i := SdramIndex(a, |data|);
    if data != [] {
      if i.None? {
        StoreEachCoherent(m, a, data, image);
      } else {
        var m' := Bulk(m, a, data);
        if Coherent(m', image) {
          forall k | 0 <= k < |data|
            ensures data[k] == image[i.value + k] || (i.value + k) / PAGE_SIZE in m.dirty
          {
            assert m'.ram[i.value + k] == data[k];
          }
        }
      }
    }
  }

  /** Zeroing one word of a clean page leaves a stale literal behind. */
  lemma ZeroingLeavesStaleLiteral(m: Mem, image: seq<Byte>, q: nat)
    requires |m.ram| == |image| == RAM_SIZE && Coherent(m, image)
    requires q < 0x40_0000 && LoadWord(image, 4 * q) != 0 && 4 * q / PAGE_SIZE !in m.dirty
    ensures var m' := Bulk(m, Cached(4 * q), [0, 0, 0, 0]);
            LoadWord(m'.ram, 4 * q) == 0 && Literal32(m', Cached(4 * q), LoadWord(image, 4 * q)) != 0
  {
    CachedIndex(4 * q, 4);
    SamePage(q, 4 * q);
  }

  /** On the SDRAM path a 32-bit guest store is the store the recompiled code performs. */
  lemma StoreIsWrite32(m: Mem, a: Word, v: Word)
    requires |m.ram| == RAM_SIZE && SdramIndex(a, 4).Some?
    ensures Fits(Sdram, RAM_SIZE) && Store(m, a, Bytes32(v)) == Write32(Sdram, m, a, v)
  {
    SdramFits();
  }

  // ----- Addresses and widths

  /** Every one of the four mirrors in area 3 of every alias leads to the same 16 MiB, and an access
      that runs past the end of a mirror, or lies outside area 3, has no place there. */
  lemma EveryMirror(alias: nat, area: nat, mirror: nat, off: nat, width: nat)
    requires alias < 8 && area < 8 && mirror < 4 && off < RAM_SIZE
    ensures var a := 0x2000_0000 * alias + 0x400_0000 * area + RAM_SIZE * mirror + off;
            a < TWO_32 && SdramIndex(a, width) == if area == 3 && off + width <= RAM_SIZE then Some(off) else None
  {
    var low := 0x400_0000 * area + RAM_SIZE * mirror + off;
    var a := 0x2000_0000 * alias + low;
    DivModUnique(a, 0x2000_0000, alias, low);
    if area == 3 {
      DivModUnique(low - 0x0C00_0000, RAM_SIZE, mirror, off);
    }
  }

  /** A store of any width reads back, low byte first, and leaves every other byte. */
  lemma StoresReadBack(m: Mem, a: Word, v: Word)
    requires |m.ram| == RAM_SIZE
    ensures SdramIndex(a, 1).Some? ==> Store(m, a, [v % 0x100]).ram == m.ram[SdramIndex(a, 1).value := v % 0x100]
    ensures SdramIndex(a, 2).Some? ==>
              var p := SdramIndex(a, 2).value; var out := Store(m, a, Bytes16(v % 0x1_0000)).ram;
              LoadHalf(out, p) == v % 0x1_0000 && forall i :: 0 <= i < RAM_SIZE && !(p <= i < p + 2) ==> out[i] == m.ram[i]
    ensures SdramIndex(a, 4).Some? ==>
              var p := SdramIndex(a, 4).value; var out := Store(m, a, Bytes32(v)).ram;
              LoadWord(out, p) == v && forall i :: 0 <= i < RAM_SIZE && !(p <= i < p + 4) ==> out[i] == m.ram[i]
  {
    hide SdramIndex;
    BytesOfWord(v);
  }

  // ----- Runs

  datatype Op = Write(a: Word, data: seq<Byte>) | Copy(a: Word, data: seq<Byte>)

  function Do(m: Mem, op: Op): (m': Mem)
    requires |m.ram| == RAM_SIZE
    ensures |m'.ram| == RAM_SIZE
  {
    match op
    case Write(a, data) => Store(m, a, data)
    case Copy(a, data) => Bulk(m, a, data)
  }

  function Run(m: Mem, ops: seq<Op>): (m': Mem)
    requires |m.ram| == RAM_SIZE
    ensures |m'.ram| == RAM_SIZE
  {
    if ops == [] then m else Do(Run(m, ops[..|ops| - 1]), ops[|ops| - 1])
  }

  ghost predicate Guests(ops: seq<Op>) {
    forall i :: 0 <= i < |ops| && ops[i].Write? ==> Guest(ops[i].data)
  }

  /** Every bulk copy of the run is harmless when its turn comes. */
  ghost predicate AllHarmless(m: Mem, ops: seq<Op>, image: seq<Byte>)
    requires |m.ram| == |image| == RAM_SIZE
  {
    forall i :: 0 <= i < |ops| ==> HarmlessAt(m, ops, i, image)
  }

  ghost predicate HarmlessAt(m: Mem, ops: seq<Op>, i: nat, image: seq<Byte>)
    requires |m.ram| == |image| == RAM_SIZE && i < |ops|
  {
    ops[i].Copy? ==> Harmless(Run(m, ops[..i]), ops[i].a, ops[i].data, image)
  }

  ghost predicate CoherentThroughout(m: Mem, ops: seq<Op>, image: seq<Byte>)
    requires |m.ram| == |image| == RAM_SIZE
  {
    forall i :: 0 <= i <= |ops| ==> Coherent(Run(m, ops[..i]), image)
  }

  /** Literals agree with RAM all through a run of guest stores and bulk copies if and only if each
      bulk copy is harmless at its time; in particular through every run of guest stores. */
  lemma {:induction false} RunExact(m: Mem, ops: seq<Op>, image: seq<Byte>)
    requires |m.ram| == |image| == RAM_SIZE && Coherent(m, image) && Guests(ops)
    ensures CoherentThroughout(m, ops, image) <==> AllHarmless(m, ops, image)
  {
    hide Coherent, Harmless, Do, CoherentThroughout, AllHarmless;
    if ops == [] {
      NothingRun(m, image);
    } else {
      var n := |ops| - 1;
      RunExact(m, ops[..n], image);
      ThroughoutSplits(m, ops, image);
      HarmlessSplits(m, ops, image);
      if Coherent(Run(m, ops[..n]), image) {
        DoExact(Run(m, ops[..n]), ops[n], image);
      }
    }
  }

  lemma NothingRun(m: Mem, image: seq<Byte>)
    requires |m.ram| == |image| == RAM_SIZE && Coherent(m, image)
    ensures CoherentThroughout(m, [], image) && AllHarmless(m, [], image)
  {
    hide Coherent;
    var none: seq<Op> := [];
    assert none[..0] == none;
  }

  lemma ThroughoutSplits(m: Mem, ops: seq<Op>, image: seq<Byte>)
    requires |m.ram| == |image| == RAM_SIZE && ops != []
    ensures var front := ops[..|ops| - 1];
            && (CoherentThroughout(m, ops, image) <==> CoherentThroughout(m, front, image) && Coherent(Run(m, ops), image))
            && (CoherentThroughout(m, front, image) ==> Coherent(Run(m, front), image))
  {
    hide Coherent, Run;
    var n := |ops| - 1;
    var front := ops[..n];
    assert ops[..n + 1] == ops && front[..n] == front;
    assert forall i :: 0 <= i <= n ==> ops[..i] == front[..i];
  }

  lemma HarmlessSplits(m: Mem, ops: seq<Op>, image: seq<Byte>)
    requires |m.ram| == |image| == RAM_SIZE && ops != []
    ensures var front := ops[..|ops| - 1]; var last := ops[|ops| - 1];
            AllHarmless(m, ops, image) <==>
            AllHarmless(m, front, image) && (last.Copy? ==> Harmless(Run(m, front), last.a, last.data, image))
  {
    hide HarmlessAt, Run;
    var n := |ops| - 1;
    var front := ops[..n];
    forall i | 0 <= i < n
      ensures HarmlessAt(m, ops, i, image) == HarmlessAt(m, front, i, image)
    {
      SameFront(m, ops, i, image);
    }
    LastHarmless(m, ops, image);
  }

  lemma SameFront(m: Mem, ops: seq<Op>, i: nat, image: seq<Byte>)
    requires |m.ram| == |image| == RAM_SIZE && i < |ops| - 1
    ensures HarmlessAt(m, ops, i, image) == HarmlessAt(m, ops[..|ops| - 1], i, image)
  {
    hide Harmless, Run;
    assert ops[..i] == ops[..|ops| - 1][..i];
  }

  lemma LastHarmless(m: Mem, ops: seq<Op>, image: seq<Byte>)
    requires |m.ram| == |image| == RAM_SIZE && ops != []
    ensures var n := |ops| - 1;
            HarmlessAt(m, ops, n, image) <==> (ops[n].Copy? ==> Harmless(Run(m, ops[..n]), ops[n].a, ops[n].data, image))
  {
    hide Harmless, Run;
  }

  lemma DoExact(m: Mem, op: Op, image: seq<Byte>)
    requires |m.ram| == |image| == RAM_SIZE && Coherent(m, image) && (op.Write? ==> Guest(op.data))
    ensures Coherent(Do(m, op), image) <==> (op.Copy? ==> Harmless(m, op.a, op.data, image))
  {
    match op
    case Write(a, data) => StoreCoherent(m, a, data, image);
    case Copy(a, data) => BulkExact(m, a, data, image);
  }

  // ----- The runtime's memory

  function DirtySet(flags: seq<bool>): set<nat> {
    set i: nat | i < |flags| && flags[i]
  }

  class MainRam {
    const ram: array<Byte>
    const literalDirty: array<bool>
    var dynamicLiteralReads: nat

    ghost predicate Valid() {
      ram.Length == RAM_SIZE && literalDirty.Length == PAGES
    }

    ghost function Abstract(): (m: Mem)
      requires Valid()
      reads ram, literalDirty
      ensures |m.ram| == RAM_SIZE
    {
      Mem(ram[..], DirtySet(literalDirty[..]))
    }

    constructor ()
      ensures Valid() && fresh(ram) && fresh(literalDirty)
      ensures Abstract() == Mem(seq(RAM_SIZE, _ => 0), {})
    {
      ram := new Byte[RAM_SIZE](_ => 0);
      literalDirty := new bool[PAGES](_ => false);
      new;
      assert ram[..] == seq(RAM_SIZE, _ => 0);
    }

    /** A byte outside SDRAM belongs to another device and reads as 0 here. */
    method Read8(a: Word) returns (v: Byte)
      requires Valid()
      ensures v == if SdramIndex(a, 1).Some? then ram[SdramIndex(a, 1).value] else 0
    {
      var i := SdramIndex(a, 1);
      v := if i.Some? then ram[i.value] else 0;
    }

    method Write8(a: Word, v: Byte)
      requires Valid()
      modifies ram, literalDirty
      ensures Abstract() == Store(old(Abstract()), a, [v])
    {
      var i := SdramIndex(a, 1);
      if i.Some? {
        ram[i.value] := v;
        literalDirty[i.value / PAGE_SIZE] := true;
      }
    }

    method Write16(a: Word, v: Half)
      requires Valid()
      modifies ram, literalDirty
      ensures Abstract() == Store(old(Abstract()), a, Bytes16(v))
    {
      var i := SdramIndex(a, 2);
      if i.Some? {
        ram[i.value] := v % 0x100;
        ram[i.value + 1] := v / 0x100;
        literalDirty[i.value / PAGE_SIZE] := true;
        literalDirty[(i.value + 1) / PAGE_SIZE] := true;
      }
    }

    method Write32(a: Word, v: Word)
      requires Valid()
      modifies ram, literalDirty
      ensures Abstract() == Store(old(Abstract()), a, Bytes32(v))
    {
      var i := SdramIndex(a, 4);
      if i.Some? {
        ram[i.value] := v % 0x100;
        ram[i.value + 1] := v / 0x100 % 0x100;
        ram[i.value + 2] := v / 0x1_0000 % 0x100;
        ram[i.value + 3] := v / 0x100_0000;
        literalDirty[i.value / PAGE_SIZE] := true;
        literalDirty[(i.value + 3) / PAGE_SIZE] := true;
      }
    }

    method LoadBytes(a: Word, data: seq<Byte>)
      requires Valid()
      modifies ram, literalDirty
      ensures Abstract() == Bulk(old(Abstract()), a, data)
    {
      if data == [] {
        return;
      }
      var i := SdramIndex(a, |data|);
      if i.Some? {
        CopyIn(i.value, data);
        return;
      }
      ghost var was := Abstract();
      for k := 0 to |data|
        invariant Abstract() == StoreEach(was, a, data[..k])
      {
        assert data[..k + 1][..k] == data[..k];
        Write8(Plus(a, k), data[k]);
      }
      assert data[..|data|] == data;
    }

    method CopyIn(p: nat, data: seq<Byte>)
      requires Valid() && p + |data| <= RAM_SIZE
      modifies ram
      ensures ram[..] == Replace(old(ram[..]), p, data)
    {
      ghost var was := ram[..];
      for k := 0 to |data|
        invariant ram[..] == Replace(was, p, data[..k])
      {
        ram[p + k] := data[k];
      }
      assert data[..|data|] == data;
    }

    method LoadLiteral32(a: Word, baked: Word) returns (v: Word)
      requires Valid()
      modifies this`dynamicLiteralReads
      ensures v == Literal32(Abstract(), a, baked)
      ensures dynamicLiteralReads == old(dynamicLiteralReads)
              || (dynamicLiteralReads == old(dynamicLiteralReads) + 1 && SdramIndex(a, 4).Some? && v == LoadWord(ram[..], SdramIndex(a, 4).value))
    {
      var i := SdramIndex(a, 4);
      if i.Some? && (literalDirty[i.value / PAGE_SIZE] || literalDirty[(i.value + 3) / PAGE_SIZE]) {
        dynamicLiteralReads := dynamicLiteralReads + 1;
        var p := i.value;
        return ram[p] as int + 0x100 * (ram[p + 1] as int) + 0x1_0000 * (ram[p + 2] as int) + 0x100_0000 * (ram[p + 3] as int);
      }
      v := baked;
    }
  }
}

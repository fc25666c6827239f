/** The read-only audit of a memory-unit image, `launcher/vmu_inspector.py`. */
module VmuFat {
  import opened Words

  const SIZE: nat := 131072
  const BLOCK: nat := 512
  const ROOT: nat := 130560
  const FAT_START: nat := 130048
  const FAT_FREE: nat := 0xFFFC
  const FAT_END: nat := 0xFFFA
  const NOWHERE: nat := 0x1_0000

  type Fat = s: seq<nat> | |s| == 256 witness seq(256, _ => 0)

  datatype Status = OK | Cyclic | BadEnd | Truncated | BadSize

  datatype Entry = Entry(game: bool, first: nat, blocks: nat, bytes: nat, copyProtected: bool, status: Status)

  datatype Report = Report(formatted: bool, capacity: nat, used: nat, free: nat, entries: seq<Entry>)

  datatype Result = Read(report: Report) | WrongSize

  // ----- Chains

  /** The i-th block of the chain that starts at first. */
  function Follow(fat: Fat, first: nat, i: nat): nat {
    if i == 0 then first
    else
      var b := Follow(fat, first, i - 1);
      if b < 256 then fat[b] else NOWHERE
  }

  /** The first n blocks are in range and all different. */
  ghost predicate Sound(fat: Fat, capacity: nat, first: nat, n: nat) {
    && (forall i :: 0 <= i < n ==> Follow(fat, first, i) < capacity)
    && (forall i, j :: 0 <= i < j < n ==> Follow(fat, first, i) != Follow(fat, first, j))
  }

  /** A file as it should be: exactly `blocks` different blocks, and then the end mark. */
  ghost predicate Proper(fat: Fat, capacity: nat, first: nat, blocks: nat) {
    1 <= blocks <= capacity && Sound(fat, capacity, first, blocks) && Follow(fat, first, blocks) == FAT_END
  }

  predicate Marker(x: nat) { x == FAT_END || x == FAT_FREE || x == 0xFFFF }

  /** What is wrong with a chain that is not proper. */
  ghost predicate Explains(s: Status, fat: Fat, capacity: nat, first: nat, blocks: nat) {
    match s
    case OK => Proper(fat, capacity, first, blocks)
    case BadSize => blocks == 0 || blocks > capacity
    case BadEnd => 1 <= blocks <= capacity && Sound(fat, capacity, first, blocks) && Follow(fat, first, blocks) != FAT_END
    case Truncated =>
      1 <= blocks <= capacity && exists i :: 0 < i < blocks && Sound(fat, capacity, first, i) && Marker(Follow(fat, first, i))
    case Cyclic =>
      && 1 <= blocks <= capacity
      && exists i :: 0 <= i < blocks && Sound(fat, capacity, first, i) && !Sound(fat, capacity, first, i + 1)
                     && (i > 0 ==> !Marker(Follow(fat, first, i)))
  }

  /** At most one status explains a chain, so the audit's answer is the only right one. */
  lemma OnlyOneExplains(s: Status, t: Status, fat: Fat, capacity: nat, first: nat, blocks: nat)
    requires capacity <= 200
    requires Explains(s, fat, capacity, first, blocks) && Explains(t, fat, capacity, first, blocks)
    ensures s == t
  {
    hide Sound, Follow;
    if Sound(fat, capacity, first, blocks) {
      WholeChain(fat, capacity, first, blocks);
    }
    if s == Cyclic || t == Cyclic {
      BreaksOnce(fat, capacity, first, blocks);
    }
  }

  lemma WholeChain(fat: Fat, capacity: nat, first: nat, blocks: nat)
    requires capacity <= 200 && Sound(fat, capacity, first, blocks)
    ensures !Explains(Cyclic, fat, capacity, first, blocks) && !Explains(Truncated, fat, capacity, first, blocks)
  {
    hide Sound, Follow;
    forall i | 0 <= i < blocks
      ensures Sound(fat, capacity, first, i) ==> Sound(fat, capacity, first, i + 1) && !Marker(Follow(fat, first, i))
    {
      SoundPrefix(fat, capacity, first, blocks, i);
      SoundPrefix(fat, capacity, first, blocks, i + 1);
    }
  }

  lemma BreaksOnce(fat: Fat, capacity: nat, first: nat, blocks: nat)
    requires capacity <= 200
    requires Explains(Cyclic, fat, capacity, first, blocks)
    ensures !Explains(Truncated, fat, capacity, first, blocks)
  {
    hide Sound, Follow;
    var i :| 0 <= i < blocks && Sound(fat, capacity, first, i) && !Sound(fat, capacity, first, i + 1)
             && (i > 0 ==> !Marker(Follow(fat, first, i)));
    forall k | 0 < k < blocks && Sound(fat, capacity, first, k)
      ensures !Marker(Follow(fat, first, k))
    {
      SoundPrefix(fat, capacity, first, i, k);
    }
  }

  /** A sound chain has no mark inside, and its beginnings are sound. */
  lemma SoundPrefix(fat: Fat, capacity: nat, first: nat, i: nat, k: nat)
    requires capacity <= 200 && Sound(fat, capacity, first, i)
    ensures k < i ==> !Marker(Follow(fat, first, k)) && Sound(fat, capacity, first, k)
    ensures i < k && Sound(fat, capacity, first, k) ==> Sound(fat, capacity, first, i + 1)
  {
    if k < i {
      assert Follow(fat, first, k) < capacity;
    }
  }

  /** One more block. */
  lemma SoundNext(fat: Fat, capacity: nat, first: nat, i: nat, seen: set<nat>)
    requires Sound(fat, capacity, first, i) && seen == BlocksOf(fat, first, i)
    ensures Sound(fat, capacity, first, i + 1) <==> Follow(fat, first, i) < capacity && Follow(fat, first, i) !in seen
    ensures BlocksOf(fat, first, i + 1) == seen + {Follow(fat, first, i)}
    ensures Follow(fat, first, i) < 256 ==> Follow(fat, first, i + 1) == fat[Follow(fat, first, i)]
  {
    hide Follow;
    FollowNext(fat, first, i);
  }

  lemma FollowNext(fat: Fat, first: nat, i: nat)
    ensures Follow(fat, first, i) < 256 ==> Follow(fat, first, i + 1) == fat[Follow(fat, first, i)]
  {
  }

  /** The loop over one directory entry. */
  method Audit(fat: Fat, capacity: nat, first: nat, blocks: nat) returns (status: Status)
    requires 1 <= capacity <= 200
    ensures Explains(status, fat, capacity, first, blocks)
    ensures status == OK <==> Proper(fat, capacity, first, blocks)
  {
    hide Sound, Follow, BlocksOf;
    status := OK;
    var seen: set<nat> := {};
    var nxt := first;
    var n := if blocks < capacity + 1 then blocks else capacity + 1;
    var i := 0;
    NothingSeen(fat, capacity, first);
    while i < n
      invariant 0 <= i <= n
      invariant status == OK || (i == n && status == BadEnd)
      invariant Sound(fat, capacity, first, i) && nxt == Follow(fat, first, i) && seen == BlocksOf(fat, first, i)
      invariant 0 < i < blocks ==> !Marker(nxt)
      invariant blocks > 0 && i == blocks ==> (status == OK <==> nxt == FAT_END)
    {
      SoundNext(fat, capacity, first, i, seen);
      if nxt >= capacity || nxt in seen {
        status := Cyclic;
        break;
      }
      seen := seen + {nxt};
      var nextBlock := fat[nxt];
      if i == blocks - 1 {
        if nextBlock != FAT_END {
          status := BadEnd;
        }
      } else if nextBlock in {FAT_END, FAT_FREE, 0xFFFF} {
        status := Truncated;
        break;
      }
      nxt := nextBlock;
      i := i + 1;
    }
    if blocks == 0 || blocks > capacity {
      status := BadSize;
    }
    ghost var answer := status;
    if Proper(fat, capacity, first, blocks) {
      OnlyOneExplains(answer, OK, fat, capacity, first, blocks);
    }
  }

  lemma NothingSeen(fat: Fat, capacity: nat, first: nat)
    ensures Sound(fat, capacity, first, 0) && Follow(fat, first, 0) == first && BlocksOf(fat, first, 0) == {}
  {
  }

  // ----- What OK is good for

  /** Where the chains of two proper files meet, they are equally far from their ends and go on
      together: two such files are disjoint or share a common tail. */
  lemma SharedTail(fat: Fat, capacity: nat, a: nat, n: nat, b: nat, m: nat, i: nat, j: nat)
    requires capacity <= 200 && Proper(fat, capacity, a, n) && Proper(fat, capacity, b, m)
    requires i < n && j < m && Follow(fat, a, i) == Follow(fat, b, j)
    ensures n - i == m - j
    ensures forall p, q :: i <= p < n && q - p == j - i ==> Follow(fat, a, p) == Follow(fat, b, q)
  {
    hide Proper, Follow;
    NoLater(fat, capacity, a, n, b, m, i, j);
    NoLater(fat, capacity, b, m, a, n, j, i);
    forall p, q | i <= p < n && q - p == j - i
      ensures Follow(fat, a, p) == Follow(fat, b, q)
    {
      InStep(fat, a, b, i, j, p - i);
    }
  }

  lemma NoLater(fat: Fat, capacity: nat, a: nat, n: nat, b: nat, m: nat, i: nat, j: nat)
    requires capacity <= 200 && Proper(fat, capacity, a, n) && Proper(fat, capacity, b, m)
    requires i < n && j < m && Follow(fat, a, i) == Follow(fat, b, j)
    ensures m - j <= n - i
  {
    hide Follow;
    if n - i < m - j {
      InStep(fat, a, b, i, j, n - i);
      assert false;
    }
  }

  lemma {:induction false} InStep(fat: Fat, a: nat, b: nat, i: nat, j: nat, k: nat)
    requires Follow(fat, a, i) == Follow(fat, b, j)
    ensures Follow(fat, a, i + k) == Follow(fat, b, j + k)
  {
    if k > 0 {
      InStep(fat, a, b, i, j, k - 1);
    }
  }

  function CountFree(fat: Fat, n: nat): nat
    requires n <= 256
  {
    if n == 0 then 0 else CountFree(fat, n - 1) + if fat[n - 1] == FAT_FREE then 1 else 0
  }

  ghost function UsedBlocks(fat: Fat, n: nat): set<nat>
    requires n <= 256
  {
    set b: nat | b < n && fat[b] != FAT_FREE
  }

  lemma {:induction false} UsedCounts(fat: Fat, n: nat)
    requires n <= 256
    ensures |UsedBlocks(fat, n)| == n - CountFree(fat, n)
  {
    if n > 0 {
      UsedCounts(fat, n - 1);
      assert UsedBlocks(fat, n) == UsedBlocks(fat, n - 1) + if fat[n - 1] != FAT_FREE then {n - 1} else {};
    }
  }

  ghost function BlocksOf(fat: Fat, first: nat, n: nat): set<nat> {
    set i | 0 <= i < n :: Follow(fat, first, i)
  }

  lemma {:induction false} ChainCounts(fat: Fat, capacity: nat, first: nat, n: nat)
    requires Sound(fat, capacity, first, n)
    ensures |BlocksOf(fat, first, n)| == n
  {
    hide Follow, Sound, BlocksOf;
    if n == 0 {
      NothingSeen(fat, capacity, first);
    } else {
      SoundFront(fat, capacity, first, n);
      ChainCounts(fat, capacity, first, n - 1);
      SoundNext(fat, capacity, first, n - 1, BlocksOf(fat, first, n - 1));
    }
  }

  lemma SoundFront(fat: Fat, capacity: nat, first: nat, n: nat)
    requires n > 0 && Sound(fat, capacity, first, n)
    ensures Sound(fat, capacity, first, n - 1)
  {
    hide Follow;
  }

  lemma ProperIsUsed(fat: Fat, capacity: nat, first: nat, n: nat)
    requires capacity <= 200 && Proper(fat, capacity, first, n)
    ensures BlocksOf(fat, first, n) <= UsedBlocks(fat, capacity)
  {
    forall i | 0 <= i < n
      ensures Follow(fat, first, i) in UsedBlocks(fat, capacity)
    {
      assert fat[Follow(fat, first, i)] == Follow(fat, first, i + 1);
      assert i + 1 < n ==> Follow(fat, first, i + 1) < capacity;
    }
  }

  ghost predicate AllProper(fat: Fat, capacity: nat, files: seq<(nat, nat)>) {
    forall k :: 0 <= k < |files| ==> Proper(fat, capacity, files[k].0, files[k].1)
  }

  ghost predicate PairwiseDisjoint(fat: Fat, files: seq<(nat, nat)>) {
    forall j, k :: 0 <= j < k < |files| ==>
      BlocksOf(fat, files[j].0, files[j].1) !! BlocksOf(fat, files[k].0, files[k].1)
  }

  function TotalBlocks(files: seq<(nat, nat)>): nat {
    if files == [] then 0 else TotalBlocks(files[..|files| - 1]) + files[|files| - 1].1
  }

  ghost function Union(fat: Fat, files: seq<(nat, nat)>): set<nat> {
    if files == [] then {}
    else Union(fat, files[..|files| - 1]) + BlocksOf(fat, files[|files| - 1].0, files[|files| - 1].1)
  }

  ghost predicate InSome(fat: Fat, files: seq<(nat, nat)>, b: nat) {
    exists k :: 0 <= k < |files| && b in BlocksOf(fat, files[k].0, files[k].1)
  }

  lemma {:induction false} UnionCounts(fat: Fat, capacity: nat, files: seq<(nat, nat)>)
    requires capacity <= 200 && AllProper(fat, capacity, files) && PairwiseDisjoint(fat, files)
    ensures |Union(fat, files)| == TotalBlocks(files) && Union(fat, files) <= UsedBlocks(fat, capacity)
    ensures forall b :: b in Union(fat, files) ==> InSome(fat, files, b)
  {
    hide Sound, BlocksOf, Follow, UsedBlocks, InSome;
    if files != [] {
      var n := |files| - 1;
      var front := files[..n];
      UnionCounts(fat, capacity, front);
      ChainCounts(fat, capacity, files[n].0, files[n].1);
      ProperIsUsed(fat, capacity, files[n].0, files[n].1);
      forall b | b in Union(fat, files)
        ensures InSome(fat, files, b)
        ensures b in Union(fat, front) ==> b !in BlocksOf(fat, files[n].0, files[n].1)
      {
        if b in Union(fat, front) {
          FrontApart(fat, files, b);
        } else {
          InLast(fat, files, b);
        }
      }
    }
  }

  lemma FrontApart(fat: Fat, files: seq<(nat, nat)>, b: nat)
    requires files != [] && PairwiseDisjoint(fat, files) && InSome(fat, files[..|files| - 1], b)
    ensures InSome(fat, files, b) && b !in BlocksOf(fat, files[|files| - 1].0, files[|files| - 1].1)
  {
    hide BlocksOf;
    var front := files[..|files| - 1];
    var k :| 0 <= k < |front| && b in BlocksOf(fat, front[k].0, front[k].1);
    assert files[k] == front[k];
  }

  lemma InLast(fat: Fat, files: seq<(nat, nat)>, b: nat)
    requires files != [] && b in BlocksOf(fat, files[|files| - 1].0, files[|files| - 1].1)
    ensures InSome(fat, files, b)
  {
    hide BlocksOf;
  }

  /** Disjoint OK files never add up to more than the report's used blocks. */
  lemma FilesFitUsed(fat: Fat, capacity: nat, files: seq<(nat, nat)>)
    requires capacity <= 200 && AllProper(fat, capacity, files) && PairwiseDisjoint(fat, files)
    ensures TotalBlocks(files) <= capacity - CountFree(fat, capacity)
  {
    UnionCounts(fat, capacity, files);
    UsedCounts(fat, capacity);
    SubsetCounts(Union(fat, files), UsedBlocks(fat, capacity));
  }

  lemma {:induction false} SubsetCounts(a: set<nat>, b: set<nat>)
    requires a <= b
    ensures |a| <= |b|
    decreases |a|
  {
    if a != {} {
      var x :| x in a;
      SubsetCounts(a - {x}, b - {x});
    }
  }

  // ----- The whole image

  function U16(data: seq<Byte>, off: nat): nat
    requires off + 2 <= |data|
  {
    data[off] as int + 0x100 * data[off + 1] as int
  }

  function FatOf(data: seq<Byte>): Fat
    requires |data| == SIZE
  {
    seq(256, i requires 0 <= i < 256 => U16(data, FAT_START + 2 * i))
  }

  predicate Formatted(data: seq<Byte>)
    requires |data| == SIZE
  {
    forall off :: ROOT <= off < ROOT + 16 ==> data[off] == 0x55
  }

  function CapacityOf(data: seq<Byte>): nat
    requires |data| == SIZE
  {
    var c := if Formatted(data) then U16(data, ROOT + 0x50) else 200;
    if 1 <= c <= 200 then c else 200
  }

  /** First (highest) block of the directory and its length, sanitised. */
  function DirectoryOf(data: seq<Byte>): (d: (nat, nat))
    requires |data| == SIZE
    ensures d.1 <= 13 && 200 <= d.0 <= 253 && d.0 - d.1 >= 199
  {
    var start := if Formatted(data) then U16(data, ROOT + 0x4A) else 253;
    var count := if Formatted(data) then U16(data, ROOT + 0x4C) else 13;
    if 1 <= count <= 13 && 200 <= start <= 253 && start - count + 1 >= 200 then (start, count) else (253, 13)
  }

  /** The offsets of the k-th of `16 * count` directory records: blocks downwards, slots upwards. */
  function RecordAt(start: nat, k: nat): nat
    requires start >= k / 16
  {
    (start - k / 16) * BLOCK + k % 16 * 32
  }

  predicate Occupied(data: seq<Byte>, off: nat)
    requires off + 32 <= |data|
  {
    data[off] == 0x33 || data[off] == 0xCC
  }

  /** An entry reports what its record says, and its status is the right one. */
  ghost predicate Describes(e: Entry, data: seq<Byte>, off: nat)
    requires |data| == SIZE && off + 32 <= SIZE
  {
    && Occupied(data, off) && e.game == (data[off] == 0x33)
    && e.first == U16(data, off + 2) && e.blocks == U16(data, off + 24) && e.bytes == e.blocks * BLOCK
    && e.copyProtected == (data[off + 1] != 0)
    && Explains(e.status, FatOf(data), CapacityOf(data), e.first, e.blocks)
  }

  /** The occupied ones among the first k directory records. */
  function OccupiedRecords(data: seq<Byte>, start: nat, k: nat): (s: seq<nat>)
    requires |data| == SIZE && 200 <= start <= 253 && k <= 16 * 13 && k <= 16 * (start - 199)
    ensures forall i :: 0 <= i < |s| ==> s[i] + 32 <= SIZE
  {
    if k == 0 then []
    else
      var off := RecordAt(start, k - 1);
      OccupiedRecords(data, start, k - 1) + if Occupied(data, off) then [off] else []
  }

  /** One entry for each occupied record, in directory order. */
  ghost predicate Lists(entries: seq<Entry>, data: seq<Byte>, records: seq<nat>)
    requires |data| == SIZE && forall i :: 0 <= i < |records| ==> records[i] + 32 <= SIZE
  {
    |entries| == |records| && forall i :: 0 <= i < |entries| ==> Describes(entries[i], data, records[i])
  }

  /** `read_vmu`: every image of the right size is read, and every occupied record is audited. */
  method ReadVmu(data: seq<Byte>) returns (r: Result)
    ensures r.WrongSize? <==> |data| != SIZE
    ensures r.Read? ==>
              && r.report.formatted == Formatted(data) && r.report.capacity == CapacityOf(data)
              && r.report.free == CountFree(FatOf(data), r.report.capacity)
              && r.report.used == r.report.capacity - r.report.free
    ensures r.Read? ==>
              var (start, count) := DirectoryOf(data);
              Lists(r.report.entries, data, OccupiedRecords(data, start, 16 * count))
  {
    hide Explains, Formatted, FatOf, Describes, U16, Lists, OccupiedRecords;
    if |data| != SIZE {
      return WrongSize;
    }
    var fat := FatOf(data);
    var capacity := CapacityOf(data);
    var free := 0;
    for i := 0 to capacity
      invariant free == CountFree(fat, i) <= i
    {
      free := free + if fat[i] == FAT_FREE then 1 else 0;
    }
    var (start, count) := DirectoryOf(data);
    var entries: seq<Entry> := [];
    NoneListed(data, start);
    var block := start;
    ghost var k := 0;
    while block > start - count
      invariant start - count <= block <= start && k == 16 * (start - block)
      invariant Lists(entries, data, OccupiedRecords(data, start, k))
    {
      for slot := 0 to 16
        invariant k == 16 * (start - block) + slot
        invariant Lists(entries, data, OccupiedRecords(data, start, k))
      {
        RecordPlace(start, block, slot);
        var off := block * BLOCK + slot * 32;
        if data[off] == 0x33 || data[off] == 0xCC {
          var e := ReadEntry(data, fat, capacity, off);
          ListsNext(entries, data, start, k, e);
          entries := entries + [e];
        } else {
          SkipsNext(entries, data, start, k);
        }
        k := k + 1;
      }
      block := block - 1;
    }
    r := Read(Report(Formatted(data), capacity, capacity - free, free, entries));
  }

  /** The fields of one occupied record, and its audit. */
  method ReadEntry(data: seq<Byte>, fat: Fat, capacity: nat, off: nat) returns (e: Entry)
    requires |data| == SIZE && off + 32 <= SIZE && Occupied(data, off) && fat == FatOf(data) && capacity == CapacityOf(data)
    ensures Describes(e, data, off)
  {
    hide Explains, Formatted, FatOf, U16;
    var first := U16(data, off + 2);
    var blocks := U16(data, off + 24);
    var status := Audit(fat, capacity, first, blocks);
    e := Entry(data[off] == 0x33, first, blocks, blocks * BLOCK, data[off + 1] != 0, status);
  }

  lemma NoneListed(data: seq<Byte>, start: nat)
    requires |data| == SIZE && 200 <= start <= 253
    ensures Lists([], data, OccupiedRecords(data, start, 0))
  {
  }

  lemma ListsNext(entries: seq<Entry>, data: seq<Byte>, start: nat, k: nat, e: Entry)
    requires |data| == SIZE && 200 <= start <= 253 && k < 16 * 13 && k < 16 * (start - 199)
    requires Lists(entries, data, OccupiedRecords(data, start, k))
    requires RecordAt(start, k) + 32 <= SIZE && Describes(e, data, RecordAt(start, k))
    ensures Lists(entries + [e], data, OccupiedRecords(data, start, k + 1))
  {
    hide Explains, Formatted, FatOf, U16, RecordAt;
  }

  lemma SkipsNext(entries: seq<Entry>, data: seq<Byte>, start: nat, k: nat)
    requires |data| == SIZE && 200 <= start <= 253 && k < 16 * 13 && k < 16 * (start - 199)
    requires Lists(entries, data, OccupiedRecords(data, start, k))
    requires RecordAt(start, k) + 32 <= SIZE && !Occupied(data, RecordAt(start, k))
    ensures Lists(entries, data, OccupiedRecords(data, start, k + 1))
  {
    hide Describes, RecordAt;
  }

  lemma RecordPlace(start: nat, block: nat, slot: nat)
    requires block <= start <= 253 && slot < 16
    ensures var k := 16 * (start - block) + slot; RecordAt(start, k) == block * BLOCK + slot * 32
    ensures block * BLOCK + slot * 32 + 32 <= SIZE
  {
  }

  // ----- Reading back what was written

  /** v stands at off, low byte first. */
  predicate Wrote16(data: seq<Byte>, off: nat, v: nat)
    requires off + 2 <= |data|
  {
    v < 0x1_0000 && data[off] as int == v % 0x100 && data[off + 1] as int == v / 0x100
  }

  ghost predicate WroteFat(data: seq<Byte>, fat: Fat)
    requires |data| == SIZE
  {
    forall i :: 0 <= i < 256 ==> Wrote16(data, 254 * 512 + 2 * i, fat[i])
  }

  /** An image with the table in block 254 and the root in block 255 is read as it was written; a
      capacity or a directory outside the sane ranges falls back to the standard one, and so does an
      image without the format mark. */
  lemma LayoutReadsBack(data: seq<Byte>, fat: Fat, capacity: nat, start: nat, count: nat)
    requires |data| == SIZE && WroteFat(data, fat)
    requires Wrote16(data, 255 * 512 + 80, capacity) && Wrote16(data, 255 * 512 + 74, start) && Wrote16(data, 255 * 512 + 76, count)
    ensures FatOf(data) == fat
    ensures var marked := forall off :: 255 * 512 <= off < 255 * 512 + 16 ==> data[off] == 0x55;
            && CapacityOf(data) == (if marked && 1 <= capacity <= 200 then capacity else 200)
            && DirectoryOf(data) == (if marked && 1 <= count <= 13 && 200 <= start <= 253 && start - count >= 199
                                     then (start, count) else (253, 13))
  {
    forall i | 0 <= i < 256
      ensures FatOf(data)[i] == fat[i]
    {
      assert Wrote16(data, 254 * 512 + 2 * i, fat[i]);
    }
  }

  /** So are the fields of a record. */
  lemma RecordReadsBack(data: seq<Byte>, off: nat, e: Entry, first: nat, blocks: nat)
    requires |data| == SIZE && off + 32 <= SIZE && Describes(e, data, off)
    requires Wrote16(data, off + 2, first) && Wrote16(data, off + 24, blocks)
    ensures e.first == first && e.blocks == blocks && e.bytes == 512 * blocks
    ensures (e.game <==> data[off] == 0x33) && (!e.game <==> data[off] == 0xCC) && (e.copyProtected <==> data[off + 1] != 0)
  {
    hide Explains, FatOf, CapacityOf;
  }

  ghost predicate RecordPlaced(start: nat, k: nat, off: nat) {
    exists block: nat, slot: nat :: slot < 16 && 16 * (start - block) + slot < k && block <= start && off == 512 * block + 32 * slot
  }

  /** The audited records are the occupied ones among the sixteen of each directory block. */
  lemma {:induction false} RecordsExact(data: seq<Byte>, start: nat, k: nat, off: nat)
    requires |data| == SIZE && 200 <= start <= 253 && k <= 16 * 13 && k <= 16 * (start - 199) && off + 32 <= SIZE
    ensures off in OccupiedRecords(data, start, k)
            <==> RecordPlaced(start, k, off) && (data[off] == 0x33 || data[off] == 0xCC)
  {
    hide RecordAt, RecordPlaced;
    if k == 0 {
      NowherePlaced(start, off);
    } else {
      RecordsExact(data, start, k - 1, off);
      OneMorePlaced(start, k, off);
    }
  }

  lemma NowherePlaced(start: nat, off: nat)
    ensures !RecordPlaced(start, 0, off)
  {
  }

  lemma OneMorePlaced(start: nat, k: nat, off: nat)
    requires 0 < k <= 16 * 13 && k <= 16 * start
    ensures RecordPlaced(start, k, off) <==> RecordPlaced(start, k - 1, off) || off == RecordAt(start, k - 1)
  {
    var block, slot := start - (k - 1) / 16, (k - 1) % 16;
    assert 16 * (start - block) + slot == k - 1;
    if RecordPlaced(start, k, off) && !RecordPlaced(start, k - 1, off) {
      var b: nat, s: nat :| s < 16 && 16 * (start - b) + s < k && b <= start && off == 512 * b + 32 * s;
      DivModUnique(k - 1, 16, start - b, s);
    }
    if off == RecordAt(start, k - 1) {
      assert off == 512 * block + 32 * slot;
    }
  }
}

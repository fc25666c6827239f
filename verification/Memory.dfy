/** Guest memory: bytes behind an address decoder, plus the literal dirty pages. */
module Memory {
  import opened Words

  const RAM_SIZE: nat := 0x100_0000
  const PAGE_SIZE: nat := 0x1000

  /** Which byte of the memory array a guest address selects. */
  type Decoder = Word -> nat

  datatype Mem = Mem(ram: seq<Byte>, dirty: set<nat>)

  /** Every decoded address leaves room for a 32-bit access. */
  ghost predicate Fits(decode: Decoder, size: nat) {
    forall a: Word :: decode(a) + 4 <= size
  }

  /** The SDRAM decoder: 16 MiB mirrored over every cached and uncached alias.
      Only an address within three bytes of the end has no room for a word;
      it is clamped here, and word-aligned addresses never reach the clamp. */
  function Sdram(a: Word): nat {
    var off := MainRamOffset(a);
    if off + 4 <= RAM_SIZE then off else RAM_SIZE - 4
  }

  function MainRamOffset(a: Word): nat {
    (a % 0x2000_0000 - 0x0C00_0000) % RAM_SIZE
  }

  function LoadWord(ram: seq<Byte>, p: nat): Word
    requires p + 4 <= |ram|
  {
    ram[p] as int + 0x100 * (ram[p + 1] as int) + 0x1_0000 * (ram[p + 2] as int) + 0x100_0000 * (ram[p + 3] as int)
  }

  function LoadHalf(ram: seq<Byte>, p: nat): Half
    requires p + 2 <= |ram|
  {
    ram[p] as int + 0x100 * (ram[p + 1] as int)
  }

  function StoreWord(ram: seq<Byte>, p: nat, v: Word): (ram': seq<Byte>)
    requires p + 4 <= |ram|
    ensures |ram'| == |ram|
  {
    ram[p := v % 0x100][p + 1 := v / 0x100 % 0x100][p + 2 := v / 0x1_0000 % 0x100][p + 3 := v / 0x100_0000]
  }

  function Read32(decode: Decoder, mem: Mem, a: Word): Word
    requires Fits(decode, |mem.ram|)
  {
    LoadWord(mem.ram, decode(a))
  }

  function Read16(decode: Decoder, mem: Mem, a: Word): Half
    requires Fits(decode, |mem.ram|)
  {
    LoadHalf(mem.ram, decode(a))
  }

  function Write32(decode: Decoder, mem: Mem, a: Word, v: Word): (mem': Mem)
    requires Fits(decode, |mem.ram|)
    ensures |mem'.ram| == |mem.ram|
  {
    var p := decode(a);
    Mem(StoreWord(mem.ram, p, v), mem.dirty + {p / PAGE_SIZE, (p + 3) / PAGE_SIZE})
  }

  /** A word reads back what was stored there, and a store leaves every disjoint word alone. */
  lemma ReadAfterWrite(decode: Decoder, mem: Mem, a: Word, v: Word, b: Word)
    requires Fits(decode, |mem.ram|)
    ensures decode(a) == decode(b) ==> Read32(decode, Write32(decode, mem, a, v), b) == v
    ensures decode(b) + 4 <= decode(a) || decode(a) + 4 <= decode(b) ==>
              Read32(decode, Write32(decode, mem, a, v), b) == Read32(decode, mem, b)
  {
    BytesOfWord(v);
  }

  lemma SdramFits()
    ensures Fits(Sdram, RAM_SIZE)
  {
  }
}

/**
 ParamMemory of hvl/param_memory.sv with the parameters of hvl/source_tb.sv:63: a memory of 256-bit lines
 that transfers a line in four beats of 64 bits after a delay that depends on the last page.
 */
module BurstMemory {
  import opened FlatMemory

  const BURST_LEN := 4
  const PAGE_SIZE := 512

  const ZERO_BEAT: Beat := [0, 0, 0, 0, 0, 0, 0, 0]

  type Beat = b: seq<Byte> | |b| == 8 witness [0, 0, 0, 0, 0, 0, 0, 0]
  type Burst = s: seq<Beat> | |s| == BURST_LEN witness [ZERO_BEAT, ZERO_BEAT, ZERO_BEAT, ZERO_BEAT]
  type WordAddress = n: int | 0 <= n < 0x1_0000_0000

  /** _mem[line][64*i +: 64] */
  function BeatOf(line: Line, i: nat): Beat
    requires i < BURST_LEN
  {
    line[8 * i..8 * i + 8]
  }

  function Patch(line: Line, i: nat, b: Beat): Line
    requires i < BURST_LEN
  {
    line[..8 * i] + b + line[8 * i + 8..]
  }

  /** The line that a burst carries. */
  function Joined(s: Burst): Line {
    var b0: seq<Byte>, b1: seq<Byte>, b2: seq<Byte>, b3: seq<Byte> := s[0], s[1], s[2], s[3];
    b0 + b1 + b2 + b3
  }

  function LineIndex(addr: WordAddress): (n: nat)
    ensures n < LINES
  {
    addr / 32
  }

  class ParamMemory {
    var mem: Memory
    var pageno: int
    const delayMem: nat
    const delayPageHit: nat

    /** After reset: any contents, no page. */
    constructor (mem: Memory, delayMem: nat, delayPageHit: nat)
      ensures this.mem == mem && pageno == -1
      ensures this.delayMem == delayMem && this.delayPageHit == delayPageHit
    {
      this.mem, pageno := mem, -1;
      this.delayMem, this.delayPageHit := delayMem, delayPageHit;
    }

    /** Latency of the first beat, and the page it leaves open. */
    method OpenPage(addr: WordAddress) returns (delay: nat)
      modifies `pageno
      ensures delay == if addr / PAGE_SIZE == old(pageno) then delayPageHit else delayMem
      ensures pageno == addr / PAGE_SIZE
    {
      delay := if addr / PAGE_SIZE == pageno then delayPageHit else delayMem;
      pageno := addr / PAGE_SIZE;
    }

    /** memread: the beats seen at rdata, and the cycles they took. */
    method MemRead(addr: WordAddress) returns (rdata: Burst, cycles: nat)
      modifies `pageno
      ensures Joined(rdata) == mem[LineIndex(addr)] && pageno == addr / PAGE_SIZE
      ensures cycles == (if addr / PAGE_SIZE == old(pageno) then delayPageHit else delayMem) + BURST_LEN
    {
      Aligned(addr);
      var loc := (addr - addr % 32) / 32;
      var delay := OpenPage(addr);
      var beats: seq<Beat> := [];
      for i := 0 to BURST_LEN
        invariant |beats| == i && forall k :: 0 <= k < i ==> beats[k] == BeatOf(mem[loc], k)
      {
        beats := beats + [BeatOf(mem[loc], i)];
      }
      rdata, cycles := beats, delay + BURST_LEN;
      JoinedOfBeats(mem[loc], rdata);
    }

    /** memwrite: `wdata` holds the beats that the requester drives. */
    method MemWrite(addr: WordAddress, wdata: Burst) returns (cycles: nat)
      modifies `pageno, `mem
      ensures mem == old(mem)[LineIndex(addr) := Joined(wdata)] && pageno == addr / PAGE_SIZE
      ensures cycles == (if addr / PAGE_SIZE == old(pageno) then delayPageHit else delayMem) + BURST_LEN
    {
      Aligned(addr);
      var loc := (addr - addr % 32) / 32;
      var delay := OpenPage(addr);
      for i := 0 to BURST_LEN
        invariant pageno == addr / PAGE_SIZE
        invariant mem == old(mem)[loc := mem[loc]]
        invariant forall k :: 0 <= k < i ==> BeatOf(mem[loc], k) == wdata[k]
      {
        PatchBeats(mem[loc], i, wdata[i]);
        mem := mem[loc := Patch(mem[loc], i, wdata[i])];
      }
      JoinedOfBeats(mem[loc], wdata);
      cycles := delay + BURST_LEN;
    }
  }

  /** Masking the offset does not change the line. */
  lemma Aligned(addr: WordAddress)
    ensures (addr - addr % 32) / 32 == LineIndex(addr)
  {
  }

  lemma PatchBeats(line: Line, i: nat, b: Beat)
    requires i < BURST_LEN
    ensures BeatOf(Patch(line, i, b), i) == b
    ensures forall k :: 0 <= k < BURST_LEN && k != i ==> BeatOf(Patch(line, i, b), k) == BeatOf(line, k)
  {
  }

  lemma JoinedOfBeats(line: Line, s: Burst)
    requires forall k :: 0 <= k < BURST_LEN ==> s[k] == BeatOf(line, k)
    ensures Joined(s) == line
  {
  }

  /** Byte j of beat k of a line's burst is the byte at that place of the line: beats go out lowest address first. */
  lemma BeatBytes(m: Memory, addr: WordAddress, s: Burst, k: nat, j: nat)
    requires Joined(s) == m[LineIndex(addr)] && k < BURST_LEN && j < 8
    ensures addr - addr % 32 + 8 * k + j < 0x1_0000_0000
    ensures s[k][j] == ByteAt(m, addr - addr % 32 + 8 * k + j)
  {
    var n := addr - addr % 32 + 8 * k + j;
    assert n / 32 == LineIndex(addr) && n % 32 == 8 * k + j;
    assert Joined(s)[8 * k + j] == s[k][j];
  }

  /** A line of the flat memory is the one LineNo addresses. */
  lemma SameLineAsCache(addr: WordAddress)
    ensures LineIndex(addr) == LineNo(Cut(addr))
  {
  }

  /** Joined loses nothing: different bursts leave different lines. */
  lemma BurstsDetermined(s: Burst, t: Burst)
    requires Joined(s) == Joined(t)
    ensures s == t
  {
    forall k | 0 <= k < BURST_LEN
      ensures s[k] == t[k]
    {
      BeatsOfJoined(s, k);
      BeatsOfJoined(t, k);
    }
  }

  lemma BeatsOfJoined(s: Burst, k: nat)
    requires k < BURST_LEN
    ensures BeatOf(Joined(s), k) == s[k]
  {
  }

  /** What is written is read back beat for beat, through any address of the line; other lines keep theirs. */
  method WriteThenReadBack(m: ParamMemory, addr: WordAddress, wdata: Burst, other: WordAddress)
    returns (rdata: Burst, cycles: nat)
    modifies m
    ensures LineIndex(other) == LineIndex(addr) ==> rdata == wdata
    ensures LineIndex(other) != LineIndex(addr) ==> Joined(rdata) == old(m.mem)[LineIndex(other)]
    ensures cycles == (if other / PAGE_SIZE == addr / PAGE_SIZE then m.delayPageHit else m.delayMem) + BURST_LEN
  {
    var _ := m.MemWrite(addr, wdata);
    rdata, cycles := m.MemRead(other);
    if LineIndex(other) == LineIndex(addr) {
      BurstsDetermined(rdata, wdata);
    }
  }
}

/**
 The flat memory of hvl/shadow_memory.sv: 256-bit lines indexed by addr[31:5], words read and
 byte-written at the lane {addr[4:2], 2'b00}.  This is the simple thing the cache must agree with.
 A line is its 32 bytes, lane 0 first; a word is its 4 bytes, mem_byte_enable[0] first.
 */
module FlatMemory {
  import opened Arithmetic

  type Byte = bv8
  type Line = s: seq<Byte> | |s| == 32 witness ZERO_LINE
  const ZERO_LINE: seq<Byte> := seq(32, _ => 0)
  type Word = s: seq<Byte> | |s| == 4 witness seq(4, _ => 0)
  type ByteEnable = s: seq<bool> | |s| == 4 witness seq(4, _ => false)

  type Tag = t: int | 0 <= t < 0x100_0000
  type SetNo = s: int | 0 <= s < 8
  type WordNo = w: int | 0 <= w < 8
  type ByteNo = b: int | 0 <= b < 4

  /** A 32-bit address cut where every module cuts it: [31:8], [7:5], [4:2] and [1:0]. */
  datatype Address = Address(tag: Tag, index: SetNo, word: WordNo, offset: ByteNo)

  /** The 32-bit number, and back. */
  function Bits(a: Address): int { 256 * a.tag + 32 * a.index + 4 * a.word + a.offset }

  function Cut(n: int): Address
    requires 0 <= n < 0x1_0000_0000
  {
    Address(n / 256, (n / 32) % 8, (n / 4) % 8, n % 4)
  }

  const LINES := 0x800_0000
  const ZERO_MEMORY: seq<Line> := seq(LINES, _ => ZERO_LINE)

  /** Contents of every line number addr[31:5]. */
  type Memory = m: seq<Line> | |m| == LINES witness ZERO_MEMORY

  function LineOf(t: Tag, s: SetNo): (ln: nat)
    ensures ln < LINES
  {
    8 * t + s
  }

  /** addr[31:5] */
  function LineNo(a: Address): (ln: nat)
    ensures ln < LINES
  {
    LineOf(a.tag, a.index)
  }

  /** First byte lane of the word at `a`: {addr[4:2], 2'b00}. */
  function Lane(a: Address): (n: nat)
    ensures n <= 28 && n % 4 == 0
  {
    4 * a.word
  }

  lemma FieldsOf(n: int, t: int, s: int, w: int, o: int)
    requires n == 256 * t + 32 * s + 4 * w + o && 0 <= s < 8 && 0 <= w < 8 && 0 <= o < 4
    ensures n / 256 == t && (n / 32) % 8 == s && (n / 4) % 8 == w && n % 4 == o
    ensures n / 32 == 8 * t + s
  {
    QuotientIs(n, 256, t, 32 * s + 4 * w + o);
    QuotientIs(n, 32, 8 * t + s, 4 * w + o);
    QuotientIs(8 * t + s, 8, t, s);
    QuotientIs(n, 4, 64 * t + 8 * s + w, o);
    QuotientIs(64 * t + 8 * s + w, 8, 8 * t + s, w);
  }

  lemma CutBits(a: Address)
    ensures 0 <= Bits(a) < 0x1_0000_0000 && Cut(Bits(a)) == a
  {
    FieldsOf(Bits(a), a.tag, a.index, a.word, a.offset);
  }

  lemma BitsCut(n: int)
    requires 0 <= n < 0x1_0000_0000
    ensures Bits(Cut(n)) == n
    ensures LineNo(Cut(n)) == n / 32 && Lane(Cut(n)) == 4 * ((n / 4) % 8)
  {
    var q2 := n / 4;
    var q1 := q2 / 8;
    FieldsOf(n, q1 / 8, q1 % 8, q2 % 8, n % 4);
  }

  function LineWord(line: Line, lane: nat): Word
    requires lane <= 28
  {
    line[lane..lane + 4]
  }

  function ReadWord(m: Memory, a: Address): Word {
    LineWord(m[LineNo(a)], Lane(a))
  }

  /** `line` with the enabled bytes of the word at `lane` taken from `wdata`. */
  function MergeWord(line: Line, lane: nat, wdata: Word, be: ByteEnable): Line
    requires lane <= 28
  {
    seq(32, i requires 0 <= i < 32 =>
      if lane <= i < lane + 4 && be[i - lane] then wdata[i - lane] else line[i])
  }

  function WriteWord(m: Memory, a: Address, wdata: Word, be: ByteEnable): Memory {
    m[LineNo(a) := MergeWord(m[LineNo(a)], Lane(a), wdata, be)]
  }

  lemma SameWord(line: Line, lane: nat, wdata: Word, be: ByteEnable, i: nat)
    requires lane <= 28 && i < 4
    ensures LineWord(MergeWord(line, lane, wdata, be), lane)[i] == if be[i] then wdata[i] else LineWord(line, lane)[i]
  {
    assert MergeWord(line, lane, wdata, be)[lane + i] == if be[i] then wdata[i] else line[lane + i];
  }

  lemma OtherWord(line: Line, at: nat, wdata: Word, be: ByteEnable, lane: nat)
    requires at <= 28 && lane <= 28 && (lane + 4 <= at || at + 4 <= lane)
    ensures LineWord(MergeWord(line, at, wdata, be), lane) == LineWord(line, lane)
  {
    var merged := MergeWord(line, at, wdata, be);
    assert forall j :: lane <= j < lane + 4 ==> merged[j] == line[j];
  }

  /** Reading back after a write: exactly the enabled bytes of the addressed word changed. */
  lemma WriteThenRead(m: Memory, a: Address, wdata: Word, be: ByteEnable, b: Address)
    ensures var r := ReadWord(WriteWord(m, a, wdata, be), b);
            if (b.tag, b.index, b.word) == (a.tag, a.index, a.word)
            then forall i :: 0 <= i < 4 ==> r[i] == if be[i] then wdata[i] else ReadWord(m, b)[i]
            else r == ReadWord(m, b)
  {
    var line := m[LineNo(a)];
    if (b.tag, b.index, b.word) == (a.tag, a.index, a.word) {
      forall i | 0 <= i < 4
        ensures ReadWord(WriteWord(m, a, wdata, be), b)[i] == if be[i] then wdata[i] else ReadWord(m, b)[i]
      {
        SameWord(line, Lane(a), wdata, be, i);
      }
    } else if LineNo(b) == LineNo(a) {
      OtherWord(line, Lane(a), wdata, be, Lane(b));
    }
  }

  // ---- the same memory byte by byte ----

  /** The byte at a 32-bit address. */
  function ByteAt(m: Memory, n: int): Byte
    requires 0 <= n < 0x1_0000_0000
  {
    m[n / 32][n % 32]
  }

  /** Where byte i of the word at `a` is. */
  lemma BytesOfWord(a: Address, i: nat)
    requires i < 4
    ensures 4 * (Bits(a) / 4) + i < 0x1_0000_0000
    ensures (4 * (Bits(a) / 4) + i) / 32 == LineNo(a) && (4 * (Bits(a) / 4) + i) % 32 == Lane(a) + i
  {
    var w := 64 * a.tag + 8 * a.index + a.word;
    QuotientIs(Bits(a), 4, w, a.offset);
    QuotientIs(4 * w + i, 32, LineNo(a), Lane(a) + i);
  }

  /** A word is read from the four bytes of its address rounded down to a multiple of 4 ... */
  lemma ReadBytes(m: Memory, a: Address, i: nat)
    requires i < 4
    ensures 4 * (Bits(a) / 4) + i < 0x1_0000_0000
    ensures ReadWord(m, a)[i] == ByteAt(m, 4 * (Bits(a) / 4) + i)
  {
    BytesOfWord(a, i);
  }

  /** ... and a write changes the enabled ones of them and no other byte. */
  lemma WrittenBytes(m: Memory, a: Address, wdata: Word, be: ByteEnable, n: int)
    requires 0 <= n < 0x1_0000_0000
    ensures ByteAt(WriteWord(m, a, wdata, be), n) ==
            if n / 4 == Bits(a) / 4 && be[n % 4] then wdata[n % 4] else ByteAt(m, n)
  {
    var w, lane := 64 * a.tag + 8 * a.index + a.word, n % 32;
    QuotientIs(Bits(a), 4, w, a.offset);
    SameWordNumber(n, LineNo(a), a.word);
    assert MergeWord(m[LineNo(a)], Lane(a), wdata, be)[lane] ==
           if Lane(a) <= lane < Lane(a) + 4 && be[lane - Lane(a)] then wdata[lane - Lane(a)] else m[LineNo(a)][lane];
  }

  lemma SameWordNumber(n: int, line: nat, word: WordNo)
    ensures n / 4 == 8 * line + word <==> n / 32 == line && 4 * word <= n % 32 < 4 * word + 4
    ensures n / 4 == 8 * line + word ==> n % 32 - 4 * word == n % 4
  {
  }

  /** State of the `data` process: the memory and the number of mismatches. */
  datatype Checker = Checker(mem: Memory, errcount: nat)

  /** One answered request: reads are compared, writes performed. */
  function CheckOne(c: Checker, read: bool, addr: Address, wdata: Word, be: ByteEnable, rdata: Word): Checker {
    if read then (if ReadWord(c.mem, addr) != rdata then c.(errcount := c.errcount + 1) else c)
    else c.(mem := WriteWord(c.mem, addr, wdata, be))
  }

  class ShadowMemory {
    var mem: Memory
    var errcount: nat

    function View(): Checker
      reads this
    {
      Checker(mem, errcount)
    }

    constructor (image: Memory)
      ensures View() == Checker(image, 0)
    {
      mem, errcount := image, 0;
    }

    /** One event of the `data` process. */
    method Data(read: bool, addr: Address, wdata: Word, be: ByteEnable, rdata: Word)
      modifies this
      ensures View() == CheckOne(old(View()), read, addr, wdata, be, rdata)
      ensures errcount == old(errcount) + if read && rdata != ReadWord(old(mem), addr) then 1 else 0
      ensures mem == if read then old(mem) else WriteWord(old(mem), addr, wdata, be)
    {
      if read {
        var expected := Read(addr);
        if expected != rdata {
          errcount := errcount + 1;
        }
      } else {
        Write(addr, wdata, be);
      }
    }

    method Read(addr: Address) returns (rv: Word)
      ensures rv == ReadWord(mem, addr)
    {
      var line := mem[LineNo(addr)];
      rv := line[Lane(addr)..Lane(addr) + 4];
    }

    /** The byte loop of `write`: one lane at a time, then the whole line is stored back. */
    method Write(addr: Address, wdata: Word, be: ByteEnable)
      modifies `mem
      ensures mem == WriteWord(old(mem), addr, wdata, be)
    {
      var line := mem[LineNo(addr)];
      var lane := Lane(addr);
      for i := 0 to 4
        invariant forall j :: 0 <= j < 32 ==>
          line[j] == if lane <= j < lane + i && be[j - lane] then wdata[j - lane] else mem[LineNo(addr)][j]
      {
        if be[i] {
          line := line[lane + i := wdata[i]];
        }
      }
      assert line == MergeWord(mem[LineNo(addr)], lane, wdata, be);
      mem := mem[LineNo(addr) := line];
    }
  }
}

/** The word functions of the instruction modules as operations on integers. */
module IsaValues {
  import opened Arithmetic
  import opened MachineWords
  import opened BitVectors
  import opened IsaSpec
  import MExtension

  // ---- shifts, for every amount ----

  function SameShift(a: Word, n: Word): (ok: bool)
    ensures ok && ShiftLeft(a, n) == ShiftedLeft(a, n) && ShiftRight(a, n) == ShiftedRight(a, n)
  {
    true
  }

  function FarShift(a: Word, n: Word): (ok: bool)
    ensures ok && (!(n < 32) ==> ShiftedLeft(a, n) == 0 && ShiftedRight(a, n) == 0)
  {
    true
  }

  lemma LargePower(k: nat)
    requires k >= 32
    ensures Pow2(k) == TWO_32 * Pow2(k - 32) && Pow2(k) >= TWO_32
  {
    Pow2At31();
    Pow2Sum(32, k - 32);
    Pow2Grows(32, k);
  }

  lemma FarQuotients(x: Word32, p: nat, m: nat)
    requires p == TWO_32 * m && p >= TWO_32
    ensures ToWord(x * p) == 0 && x / p == 0
  {
    assert x * p == TWO_32 * (x * m);
    QuotientIs(x * p, TWO_32, x * m, 0);
    QuotientIs(x, p, 0, x);
  }

  lemma Zero()
    ensures U(0) == 0
  {
  }

  lemma ShiftsAre(a: Word, n: Word)
    ensures U(ShiftLeft(a, n)) == ToWord(U(a) * Pow2(U(n)))
    ensures U(ShiftRight(a, n)) == U(a) / Pow2(U(n))
  {
    hide *;
    Numbers();
    Zero();
    assert SameShift(a, n) && LessFact(n, 32) && FarShift(a, n);
    if U(n) < 32 {
      assert LeftValue(a, n) == U(ShiftedLeft(a, n));
      assert RightValue(a, n) == U(ShiftedRight(a, n));
    } else {
      LargePower(U(n));
      FarQuotients(U(a), Pow2(U(n)), Pow2(U(n) - 32));
    }
  }

  function SignedShiftFact(a: Word, n: Word): (ok: bool)
    ensures ok && ShiftRightSigned(a, n) == if Top(a) then !ShiftRight(!a, n) else ShiftRight(a, n)
  {
    true
  }

  /** Rounding down is complementing, dividing and complementing back. */
  lemma FloorOfNegative(m: nat, p: nat)
    requires p > 0
    ensures (-1 - m) / p == -1 - m / p
  {
    var n: int, d: int, q: int, r: int := m, p, m / p, m % p;
    assert n == d * q + r && 0 <= r < d;
    assert d * (-1 - q) == -d - d * q;
    QuotientIs(-1 - n, p, -1 - q, d - 1 - r);
  }

  lemma SignedQuotient(x: Word32, p: nat, q: Word32)
    requires p > 0
    requires x < 0x8000_0000 ==> q == x / p
    requires x >= 0x8000_0000 ==> q == TWO_32 - 1 - (TWO_32 - 1 - x) / p
    ensures q == ToWord(Signed(x) / p)
  {
    if x < 0x8000_0000 {
      WordOf(x / p, q);
    } else {
      FloorOfNegative(TWO_32 - 1 - x, p);
      WordOf(Signed(x) / p, q);
    }
  }

  /** The arithmetic shift divides the signed value, rounding down. */
  lemma ShiftRightSignedIs(a: Word, n: Word)
    ensures U(ShiftRightSigned(a, n)) == ToWord(Signed(U(a)) / Pow2(U(n)))
  {
    hide *;
    TopValue(a);
    ShiftsAre(a, n);
    ShiftsAre(!a, n);
    assert SignedShiftFact(a, n) && NotFact(a) && NotFact(ShiftRight(!a, n));
    SignedQuotient(U(a), Pow2(U(n)), U(ShiftRightSigned(a, n)));
  }

  // ---- logic, bit by bit ----

  datatype Gate = AndGate | OrGate | XorGate
  {
    predicate Of(x: bool, y: bool) {
      match this
      case AndGate => x && y
      case OrGate => x || y
      case XorGate => x != y
    }

    function Through(a: Word, b: Word): Word {
      match this
      case AndGate => BothBits(a, b)
      case OrGate => EitherBit(a, b)
      case XorGate => UnequalBits(a, b)
    }
  }

  /** The gate on every pair of binary digits. */
  function Bitwise(g: Gate, x: nat, y: nat): nat
    decreases x + y
  {
    if x == 0 && y == 0 then 0
    else 2 * Bitwise(g, x / 2, y / 2) + if g.Of(x % 2 == 1, y % 2 == 1) then 1 else 0
  }

  lemma BitwiseStep(g: Gate, x: nat, y: nat)
    requires x + y > 0
    ensures Bitwise(g, x, y) == 2 * Bitwise(g, x / 2, y / 2) + if g.Of(x % 2 == 1, y % 2 == 1) then 1 else 0
    ensures x / 2 + y / 2 < x + y
  {
  }

  lemma BitwiseZero(g: Gate)
    ensures Bitwise(g, 0, 0) == 0
  {
  }

  function Half(a: Word): Word { a >> 1 }

  predicate Odd(a: Word) { a & 1 == 1 }

  lemma HalfAndOdd(a: Word)
    ensures U(a) == 2 * U(Half(a)) + if Odd(a) then 1 else 0
    ensures U(Half(a)) == U(a) / 2 && (Odd(a) <==> U(a) % 2 == 1)
  {
    hide U;
    Halve(a);
    HalfValue(a);
  }

  lemma BothBitsHalf(a: Word, b: Word)
    ensures Half(BothBits(a, b)) == BothBits(Half(a), Half(b))
  {
  }

  lemma BothBitsOdd(a: Word, b: Word)
    ensures Odd(BothBits(a, b)) <==> Odd(a) && Odd(b)
  {
  }

  lemma EitherBitHalf(a: Word, b: Word)
    ensures Half(EitherBit(a, b)) == EitherBit(Half(a), Half(b))
  {
  }

  lemma EitherBitOdd(a: Word, b: Word)
    ensures Odd(EitherBit(a, b)) <==> Odd(a) || Odd(b)
  {
  }

  lemma UnequalBitsHalf(a: Word, b: Word)
    ensures Half(UnequalBits(a, b)) == UnequalBits(Half(a), Half(b))
  {
  }

  lemma UnequalBitsOdd(a: Word, b: Word)
    ensures Odd(UnequalBits(a, b)) <==> Odd(a) != Odd(b)
  {
  }

  lemma Digits(g: Gate, a: Word, b: Word)
    ensures Half(g.Through(a, b)) == g.Through(Half(a), Half(b))
    ensures Odd(g.Through(a, b)) <==> g.Of(Odd(a), Odd(b))
  {
    hide BothBits, EitherBit, UnequalBits, Half, Odd;
    match g
    case AndGate => BothBitsHalf(a, b); BothBitsOdd(a, b);
    case OrGate => EitherBitHalf(a, b); EitherBitOdd(a, b);
    case XorGate => UnequalBitsHalf(a, b); UnequalBitsOdd(a, b);
  }

  lemma ZeroThrough(g: Gate, a: Word, b: Word)
    ensures a == 0 && b == 0 ==> g.Through(a, b) == 0
  {
  }

  lemma {:induction false} ThroughIs(g: Gate, a: Word, b: Word)
    ensures U(g.Through(a, b)) == Bitwise(g, U(a), U(b))
    decreases U(a) + U(b)
  {
    hide *;
    ZeroValue(a);
    ZeroValue(b);
    if U(a) + U(b) == 0 {
      ZeroThrough(g, a, b);
      BitwiseZero(g);
      Zero();
    } else {
      BitwiseStep(g, U(a), U(b));
      HalfAndOdd(a);
      HalfAndOdd(b);
      HalfAndOdd(g.Through(a, b));
      Digits(g, a, b);
      ThroughIs(g, Half(a), Half(b));
    }
  }

  // ---- low bits ----

  // Low bits by shifting the others out and back.

  function Keep1(a: Word): (ok: bool)
    ensures ok && a & 1 == ShiftedRight(ShiftedLeft(a, 31), 31)
  {
    true
  }

  function Keep2(a: Word): (ok: bool)
    ensures ok && a & 3 == ShiftedRight(ShiftedLeft(a, 30), 30)
  {
    true
  }

  function Keep5(a: Word): (ok: bool)
    ensures ok && a & 0x1f == ShiftedRight(ShiftedLeft(a, 27), 27)
  {
    true
  }

  function Keep8(a: Word): (ok: bool)
    ensures ok && a & 0xff == ShiftedRight(ShiftedLeft(a, 24), 24)
  {
    true
  }

  function Keep16(a: Word): (ok: bool)
    ensures ok && a & 0xffff == ShiftedRight(ShiftedLeft(a, 16), 16)
  {
    true
  }

  function Clear1(a: Word): (ok: bool)
    ensures ok && a & 0xfffffffe == ShiftedLeft(ShiftedRight(a, 1), 1)
  {
    true
  }

  function Clear2(a: Word): (ok: bool)
    ensures ok && a & 0xfffffffc == ShiftedLeft(ShiftedRight(a, 2), 2)
  {
    true
  }

  lemma ScaledParts(p: nat, q: nat, k: nat, r: nat)
    requires p * q == TWO_32 && q > 0 && r < p
    ensures (p * k + r) * q == TWO_32 * k + q * r && q * r < TWO_32
  {
    assert (p * k + r) * q == p * k * q + r * q;
    assert p * k * q == p * q * k;
    MultipleAtLeast(q, p - r);
    assert q * (p - r) == p * q - q * r;
  }

  lemma RemainderOfScaled(x: Word32, p: nat, q: nat)
    requires p > 0 && q > 0 && p * q == TWO_32
    ensures ToWord(x * q) / q == x % p
  {
    var k, r := x / p, x % p;
    ScaledParts(p, q, k, r);
    var y, m := x * q, q * r;
    assert x == p * k + r;
    QuotientIs(y, TWO_32, k, m);
    DivideOut(q, r);
  }

  function LowFact(a: Word, n: Word, p: nat): (ok: bool)
    requires U(n) < 32 && p > 0 && p * Pow2(U(n)) == TWO_32
    ensures ok && U(ShiftedRight(ShiftedLeft(a, n), n)) == U(a) % p
  {
    hide *;
    assert LeftValue(a, n) == ToWord(U(a) * Pow2(U(n)));
    assert RightValue(ShiftedLeft(a, n), n) == U(ShiftedLeft(a, n)) / Pow2(U(n));
    RemainderOfScaled(U(a), p, Pow2(U(n)));
    true
  }

  function HighFact(a: Word, n: Word): (ok: bool)
    requires U(n) < 32
    ensures ok && U(ShiftedLeft(ShiftedRight(a, n), n)) == U(a) - U(a) % Pow2(U(n))
  {
    hide *;
    ClearValue(a, n);
    true
  }

  lemma SmallPowers()
    ensures Pow2(1) == 2 && Pow2(2) == 4 && Pow2(5) == 32 && Pow2(8) == 256 && Pow2(16) == 65536
  {
    assert Pow2(4) == 16;
    Pow2Sum(4, 4);
    Pow2Sum(8, 8);
  }

  lemma LargePowers()
    ensures Pow2(24) == 0x100_0000 && Pow2(27) == 0x800_0000 && Pow2(30) == 0x4000_0000 && Pow2(31) == 0x8000_0000
  {
    SmallPowers();
    Pow2Sum(8, 16);
    assert Pow2(3) == 8;
    Pow2Sum(3, 24);
    Pow2Sum(3, 27);
    Pow2At31();
  }

  lemma Amounts()
    ensures U(1) == 1 && U(2) == 2 && U(5) == 5 && U(8) == 8 && U(16) == 16 && U(24) == 24
    ensures U(27) == 27 && U(30) == 30 && U(31) == 31
  {
  }

  /** Masking keeps the remainder by a power of two ... */
  lemma LowBits(a: Word)
    ensures U(a & 1) == U(a) % 2 && U(a & 3) == U(a) % 4 && U(a & 0x1f) == U(a) % 32
    ensures U(a & 0xff) == U(a) % 256 && U(a & 0xffff) == U(a) % 65536
  {
    hide U, ShiftedLeft, ShiftedRight, Pow2;
    Amounts();
    SmallPowers();
    LargePowers();
    assert Keep1(a) && Keep2(a) && Keep5(a) && Keep8(a) && Keep16(a);
    assert LowFact(a, 31, 2) && LowFact(a, 30, 4) && LowFact(a, 27, 32);
    assert LowFact(a, 24, 256) && LowFact(a, 16, 65536);
  }

  /** ... or clears it. */
  lemma EvenPart(a: Word)
    ensures U(a & 0xfffffffe) == U(a) - U(a) % 2
  {
    hide U, ShiftedLeft, ShiftedRight, Pow2;
    Amounts();
    SmallPowers();
    assert Clear1(a);
    assert HighFact(a, 1);
  }

  lemma WordPart(a: Word)
    ensures U(a & 0xfffffffc) == U(a) - U(a) % 4
  {
    hide U, ShiftedLeft, ShiftedRight, Pow2;
    Amounts();
    SmallPowers();
    assert Clear2(a);
    assert HighFact(a, 2);
  }

  // ---- bytes of the memory word ----

  lemma LanesDownCases(m: Word)
    ensures LanesDown(m, 0) == m && LanesDown(m, 1) == ShiftedRight(m, 8)
    ensures LanesDown(m, 2) == ShiftedRight(m, 16) && LanesDown(m, 3) == ShiftedRight(m, 24)
  {
  }

  lemma LanesUpCases(m: Word)
    ensures LanesUp(m, 0) == m && LanesUp(m, 1) == ShiftedLeft(m, 8)
    ensures LanesUp(m, 2) == ShiftedLeft(m, 16) && LanesUp(m, 3) == ShiftedLeft(m, 24)
  {
  }

  lemma Offsets(o: Word)
    ensures U(o) == 0 <==> o == 0
    ensures U(o) == 1 <==> o == 1
    ensures U(o) == 2 <==> o == 2
    ensures U(o) == 3 <==> o == 3
  {
    SameValue(o, 0);
    SameValue(o, 1);
    SameValue(o, 2);
    SameValue(o, 3);
  }

  /** Byte lanes down and up are division and multiplication by a power of 256. */
  lemma LanesAre(m: Word, o: Word)
    requires U(o) < 4
    ensures U(LanesDown(m, o)) == U(m) / Pow2(8 * U(o))
    ensures U(LanesUp(m, o)) == ToWord(U(m) * Pow2(8 * U(o)))
  {
    hide *;
    Amounts();
    Offsets(o);
    LanesDownCases(m);
    LanesUpCases(m);
    if U(o) == 0 {
      TimesOne(U(m));
    } else if U(o) == 1 {
      assert RightValue(m, 8) == U(ShiftedRight(m, 8)) && LeftValue(m, 8) == U(ShiftedLeft(m, 8));
    } else if U(o) == 2 {
      assert RightValue(m, 16) == U(ShiftedRight(m, 16)) && LeftValue(m, 16) == U(ShiftedLeft(m, 16));
    } else {
      assert RightValue(m, 24) == U(ShiftedRight(m, 24)) && LeftValue(m, 24) == U(ShiftedLeft(m, 24));
    }
  }

  /** Bytes of an access. */
  function Bytes(s: Size): nat { match s case Byte => 1 case Half => 2 case Full => 4 }

  lemma MaskCases(s: Size)
    ensures MaskUp(SizeMask(s), 0) as int == Pow2(Bytes(s)) - 1
    ensures MaskUp(SizeMask(s), 1) as int == (2 * (Pow2(Bytes(s)) - 1)) % 16
    ensures MaskUp(SizeMask(s), 2) as int == (4 * (Pow2(Bytes(s)) - 1)) % 16
    ensures MaskUp(SizeMask(s), 3) as int == (8 * (Pow2(Bytes(s)) - 1)) % 16
  {
    assert Pow2(2) == 4 && Pow2(4) == 16;
  }

  /** One mask bit for each byte from the offset to the end of the word. */
  lemma MaskIs(s: Size, o: Word)
    requires U(o) < 4
    ensures MaskUp(SizeMask(s), o) as int == (Pow2(U(o)) * (Pow2(Bytes(s)) - 1)) % 16
  {
    hide MaskUp, SizeMask, U;
    Offsets(o);
    MaskCases(s);
    assert Pow2(3) == 8;
  }

  /** x, a number of n bits, as two's complement. */
  function TwosComplement(x: int, n: nat): int
    requires n > 0
  {
    if x < Pow2(n - 1) then x else x - Pow2(n)
  }

  lemma ByteTop(m: Word)
    ensures m & 0x80 == 0 <==> m & 0xff < 0x80
  {
  }

  lemma BytePlain(m: Word)
    ensures m & 0x80 == 0 ==> SignExtend(m & 0xff, 0x80) == m & 0xff
  {
  }

  lemma ByteNegative(m: Word)
    ensures m & 0x80 != 0 ==> SignExtend(m & 0xff, 0x80) == (m & 0xff) - 0x100
  {
  }

  lemma ByteSign(m: Word)
    ensures SignExtend(m & 0xff, 0x80) == if m & 0xff < 0x80 then m & 0xff else (m & 0xff) - 0x100
  {
    hide SignExtend;
    ByteTop(m);
    BytePlain(m);
    ByteNegative(m);
  }

  lemma HalfTop(m: Word)
    ensures m & 0x8000 == 0 <==> m & 0xffff < 0x8000
  {
  }

  lemma HalfPlain(m: Word)
    ensures m & 0x8000 == 0 ==> SignExtend(m & 0xffff, 0x8000) == m & 0xffff
  {
  }

  lemma HalfNegative(m: Word)
    ensures m & 0x8000 != 0 ==> SignExtend(m & 0xffff, 0x8000) == (m & 0xffff) - 0x10000
  {
  }

  lemma HalfSign(m: Word)
    ensures SignExtend(m & 0xffff, 0x8000) == if m & 0xffff < 0x8000 then m & 0xffff else (m & 0xffff) - 0x10000
  {
    hide SignExtend;
    HalfTop(m);
    HalfPlain(m);
    HalfNegative(m);
  }

  lemma SignAmounts()
    ensures U(0x80) == 0x80 && U(0x100) == 0x100 && U(0x8000) == 0x8000 && U(0x10000) == 0x10000
  {
  }

  lemma SignPowers()
    ensures Pow2(7) == 0x80 && Pow2(8) == 0x100 && Pow2(15) == 0x8000 && Pow2(16) == 0x10000
  {
    SmallPowers();
  }

  lemma SignExtendIs(x: Word, sign: Word, above: Word, n: nat)
    requires n > 0 && U(sign) == Pow2(n - 1) && U(above) == Pow2(n)
    requires SignExtend(x, sign) == if x < sign then x else x - above
    ensures U(SignExtend(x, sign)) == ToWord(TwosComplement(U(x), n))
  {
    hide U, SignExtend, Pow2, ToWord;
    assert LessFact(x, sign) && SubFact(x, above);
    WordOf(U(x), U(x));
  }

  /** What a load makes of the word shifted down. */
  lemma LoadedIs(s: Size, signed: bool, m: Word)
    ensures U(Loaded(s, signed, m)) ==
            match s
            case Byte => if signed then ToWord(TwosComplement(U(m) % 256, 8)) else U(m) % 256
            case Half => if signed then ToWord(TwosComplement(U(m) % 65536, 16)) else U(m) % 65536
            case Full => U(m)
  {
    hide U, SignExtend, Pow2, ToWord, TwosComplement;
    LowBits(m);
    SignAmounts();
    SignPowers();
    ByteSign(m);
    HalfSign(m);
    SignExtendIs(m & 0xff, 0x80, 0x100, 8);
    SignExtendIs(m & 0xffff, 0x8000, 0x10000, 16);
  }

  // ---- loading what was stored ----

  /** The bits of a word that a byte mask selects. */
  function Spread(m: Mask): Word {
    (if m & 1 != 0 then 0xff else 0) | (if m & 2 != 0 then 0xff00 else 0)
    | (if m & 4 != 0 then 0xff0000 else 0) | (if m & 8 != 0 then 0xff000000 else 0)
  }

  /** The memory word after a write of `data` under the byte mask. */
  function Merged(below: Word, m: Mask, data: Word): Word { (below & !Spread(m)) | (data & Spread(m)) }

  lemma ByteBack0(data: Word, below: Word)
    ensures LanesDown(Merged(below, MaskUp(1, 0), LanesUp(data, 0)), 0) & 0xff == data & 0xff
  {
  }

  lemma ByteBack1(data: Word, below: Word)
    ensures LanesDown(Merged(below, MaskUp(1, 1), LanesUp(data, 1)), 1) & 0xff == data & 0xff
  {
  }

  lemma ByteBack2(data: Word, below: Word)
    ensures LanesDown(Merged(below, MaskUp(1, 2), LanesUp(data, 2)), 2) & 0xff == data & 0xff
  {
  }

  lemma ByteBack3(data: Word, below: Word)
    ensures LanesDown(Merged(below, MaskUp(1, 3), LanesUp(data, 3)), 3) & 0xff == data & 0xff
  {
  }

  lemma HalfBack0(data: Word, below: Word)
    ensures LanesDown(Merged(below, MaskUp(3, 0), LanesUp(data, 0)), 0) & 0xffff == data & 0xffff
  {
  }

  lemma HalfBack1(data: Word, below: Word)
    ensures LanesDown(Merged(below, MaskUp(3, 1), LanesUp(data, 1)), 1) & 0xffff == data & 0xffff
  {
  }

  lemma HalfBack2(data: Word, below: Word)
    ensures LanesDown(Merged(below, MaskUp(3, 2), LanesUp(data, 2)), 2) & 0xffff == data & 0xffff
  {
  }

  lemma FullBack(data: Word, below: Word)
    ensures LanesDown(Merged(below, MaskUp(15, 0), LanesUp(data, 0)), 0) == data
  {
  }

  /** A store inside one word followed by a load of the same size gives the stored bytes back. */
  lemma StoreThenLoad(s: Size, signed: bool, o: Word, data: Word, below: Word)
    requires U(o) + Bytes(s) <= 4
    ensures var m := Merged(below, MaskUp(SizeMask(s), o), LanesUp(data, o));
            Loaded(s, signed, LanesDown(m, o)) == Loaded(s, signed, data)
  {
    hide U, Merged, MaskUp, LanesUp, LanesDown, SignExtend;
    Offsets(o);
    match s
    case Byte =>
      ByteBack0(data, below);
      ByteBack1(data, below);
      ByteBack2(data, below);
      ByteBack3(data, below);
    case Half =>
      HalfBack0(data, below);
      HalfBack1(data, below);
      HalfBack2(data, below);
    case Full =>
      FullBack(data, below);
  }

  // ---- the computations of Alu ----

  /** Applying `alu` to the words gives the low 32 bits of r. */
  predicate Gives(alu: Alu, a: Word, b: Word, r: int) { U(alu.Apply()(a, b)) == ToWord(r) }

  lemma AddIs(a: Word, b: Word)
    ensures Gives(Add, a, b, U(a) + U(b))
  {
    hide U, ToWord, Sum;
    SumIs(a, b);
  }

  lemma SumIs(a: Word, b: Word)
    ensures U(Sum(a, b)) == ToWord(U(a) + U(b)) && U(Difference(a, b)) == ToWord(U(a) - U(b))
  {
    hide U, ToWord;
    assert AddFact(a, b) && SubFact(a, b);
  }

  lemma SubIs(a: Word, b: Word)
    ensures Gives(Sub, a, b, U(a) - U(b))
  {
    hide U, ToWord, Difference;
    SumIs(a, b);
  }

  lemma SllIs(a: Word, n: Word)
    ensures Gives(Sll, a, n, U(a) * Pow2(U(n)))
  {
    hide U, ToWord, ShiftLeft;
    ShiftsAre(a, n);
  }

  lemma SrlIs(a: Word, n: Word)
    ensures Gives(Srl, a, n, U(a) / Pow2(U(n)))
  {
    hide U, ToWord, ShiftRight;
    ShiftsAre(a, n);
    WordOf(U(a) / Pow2(U(n)), U(ShiftRight(a, n)));
  }

  lemma SraIs(a: Word, n: Word)
    ensures Gives(Sra, a, n, Signed(U(a)) / Pow2(U(n)))
  {
    hide U, ToWord, ShiftRightSigned, Signed;
    ShiftRightSignedIs(a, n);
  }

  lemma FlagIs(b: bool)
    ensures U(Flag(b)) == ToWord(if b then 1 else 0)
  {
  }

  lemma LessSignedIs(a: Word, b: Word)
    ensures LessSigned(a, b) <==> Signed(U(a)) < Signed(U(b))
  {
    hide U, Signed;
    assert SignedLessFact(a, b);
  }

  lemma SltIs(a: Word, b: Word)
    ensures Gives(Slt, a, b, if Signed(U(a)) < Signed(U(b)) then 1 else 0)
  {
    hide U, ToWord, Signed, Flag, LessSigned;
    LessSignedIs(a, b);
    FlagIs(LessSigned(a, b));
  }

  lemma LessUnsignedIs(a: Word, b: Word)
    ensures LessUnsigned(a, b) <==> U(a) < U(b)
  {
    hide U;
    assert LessFact(a, b);
  }

  lemma SltuIs(a: Word, b: Word)
    ensures Gives(Sltu, a, b, if U(a) < U(b) then 1 else 0)
  {
    hide U, ToWord, Flag, LessUnsigned;
    LessUnsignedIs(a, b);
    FlagIs(LessUnsigned(a, b));
  }

  lemma GateIs(g: Gate, a: Word, b: Word)
    ensures U(g.Through(a, b)) == ToWord(Bitwise(g, U(a), U(b)))
  {
    hide *;
    ThroughIs(g, a, b);
    WordOf(U(g.Through(a, b)), U(g.Through(a, b)));
  }

  lemma LogicIs(a: Word, b: Word)
    ensures Gives(And, a, b, Bitwise(AndGate, U(a), U(b)))
    ensures Gives(Or, a, b, Bitwise(OrGate, U(a), U(b)))
    ensures Gives(Xor, a, b, Bitwise(XorGate, U(a), U(b)))
  {
    hide U, ToWord, Bitwise, BothBits, EitherBit, UnequalBits;
    GateIs(AndGate, a, b);
    GateIs(OrGate, a, b);
    GateIs(XorGate, a, b);
  }

  lemma ArithIs(f: (Word32, Word32) -> Word32, a: Word, b: Word)
    ensures U(Arith(f, a, b)) == f(U(a), U(b)) == ToWord(f(U(a), U(b)))
  {
    BackValue(f(a as int, b as int));
    WordOf(f(U(a), U(b)), f(U(a), U(b)));
  }

  /** The upper half of a 64-bit product is its quotient by 2^32, rounded down. */
  lemma UpperHalf(hi: Word32, lo: Word32, p: int)
    requires Signed(hi) * TWO_32 + lo == p || hi * TWO_32 + lo == p
    ensures ToWord(p / TWO_32) == hi
  {
    if hi * TWO_32 + lo == p {
      QuotientIs(p, TWO_32, hi, lo);
      WordOf(hi, hi);
    } else {
      QuotientIs(p, TWO_32, Signed(hi), lo);
      WordOf(Signed(hi), hi);
    }
  }

  lemma MulIs(a: Word, b: Word)
    ensures Gives(Mul, a, b, U(a) * U(b))
  {
    hide U, ToWord, Arith;
    ArithIs(MExtension.Mul, a, b);
    assert MExtension.Mul(U(a), U(b)) == ToWord(U(a) * U(b));
  }

  lemma MulhIs(a: Word, b: Word)
    ensures Gives(Mulh, a, b, Signed(U(a)) * Signed(U(b)) / TWO_32)
  {
    hide U, ToWord, Arith, MExtension.Mulh, Signed;
    ArithIs(MExtension.Mulh, a, b);
    MExtension.MulhExact(U(a), U(b));
    UpperHalf(MExtension.Mulh(U(a), U(b)), MExtension.Mul(U(a), U(b)), Signed(U(a)) * Signed(U(b)));
  }

  lemma MulhsuIs(a: Word, b: Word)
    ensures Gives(Mulhsu, a, b, Signed(U(a)) * U(b) / TWO_32)
  {
    hide U, ToWord, Arith, MExtension.Mulhsu, Signed;
    ArithIs(MExtension.Mulhsu, a, b);
    MExtension.MulhsuExact(U(a), U(b));
    UpperHalf(MExtension.Mulhsu(U(a), U(b)), MExtension.Mul(U(a), U(b)), Signed(U(a)) * U(b));
  }

  lemma MulhuIs(a: Word, b: Word)
    ensures Gives(Mulhu, a, b, U(a) * U(b) / TWO_32)
  {
    hide U, ToWord, Arith, MExtension.Mulhu, Signed;
    ArithIs(MExtension.Mulhu, a, b);
    MExtension.MulhuExact(U(a), U(b));
    UpperHalf(MExtension.Mulhu(U(a), U(b)), MExtension.Mul(U(a), U(b)), U(a) * U(b));
  }

  /** DIV and REM as the monitor computes them ... */
  lemma DivisionIs(a: Word, b: Word)
    ensures Gives(Div, a, b, MExtension.Div(U(a), U(b)))
    ensures Gives(Rem, a, b, MExtension.Rem(U(a), U(b)))
  {
    hide U, ToWord, Arith, MExtension.Div, MExtension.Rem;
    ArithIs(MExtension.Div, a, b);
    ArithIs(MExtension.Rem, a, b);
  }

  lemma UnsignedQuotients(x: Word32, y: Word32)
    ensures MExtension.Divu(x, y) == ToWord(if y == 0 then -1 else x / y)
    ensures MExtension.Remu(x, y) == ToWord(if y == 0 then x else x % y)
  {
    if y == 0 {
      WordOf(-1, TWO_32 - 1);
      WordOf(x, x);
    } else {
      WordOf(MExtension.Divu(x, y), MExtension.Divu(x, y));
      WordOf(MExtension.Remu(x, y), MExtension.Remu(x, y));
    }
  }

  /** ... and the unsigned forms. */
  lemma UnsignedDivisionIs(a: Word, b: Word)
    ensures Gives(Divu, a, b, if U(b) == 0 then -1 else U(a) / U(b))
    ensures Gives(Remu, a, b, if U(b) == 0 then U(a) else U(a) % U(b))
  {
    hide U, ToWord, Arith, MExtension.Divu, MExtension.Remu;
    ArithIs(MExtension.Divu, a, b);
    ArithIs(MExtension.Remu, a, b);
    UnsignedQuotients(U(a), U(b));
  }
}

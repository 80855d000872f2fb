/**
 Bit-vector operations as operations on the integer a word stands for.

 A law that mentions one bit, or no carry, is proved by the solver on bit vectors.  Everything above that
 follows from such laws by induction, with all definitions hidden.
 */
module BitVectors {
  import opened Arithmetic
  import opened MachineWords

  /** The integer a word stands for. */
  function U(a: bv32): Word32 { a as int }

  lemma BackAgain(a: bv32)
    ensures (a as int) as bv32 == a
  {
  }

  lemma SameValue(a: bv32, b: bv32)
    ensures a == b <==> U(a) == U(b)
  {
    BackAgain(a);
    BackAgain(b);
  }

  // ---- the lowest bit ----

  function Joined(hi: bv31, lo: bv1): bv32 { ((hi as bv32) << 1) | (lo as bv32) }

  lemma JoinedParts(a: bv32)
    ensures Joined((a >> 1) as bv31, (a & 1) as bv1) == a
  {
  }

  lemma JoinedInt(hi: bv31, lo: bv1)
    ensures (((hi as bv32) << 1) | (lo as bv32)) as int == 2 * (hi as int) + (lo as int)
  {
  }

  lemma JoinedValue(hi: bv31, lo: bv1)
    ensures U(Joined(hi, lo)) == 2 * (hi as int) + (lo as int)
  {
    JoinedInt(hi, lo);
  }

  lemma HalfInt(a: bv32)
    ensures (a >> 1) as int == ((a >> 1) as bv31) as int
  {
  }

  lemma BitInt(lo: bv1)
    ensures lo as int == if lo == 1 then 1 else 0
  {
  }

  lemma LastBit(a: bv32)
    ensures ((a & 1) as bv1) == 1 <==> a & 1 == 1
  {
  }

  lemma HalfIs(a: bv32)
    ensures U(a >> 1) == ((a >> 1) as bv31) as int
  {
    HalfInt(a);
  }

  lemma Halve(a: bv32)
    ensures U(a) == 2 * U(a >> 1) + if a & 1 == 1 then 1 else 0
  {
    hide *;
    JoinedParts(a);
    JoinedValue((a >> 1) as bv31, (a & 1) as bv1);
    HalfIs(a);
    BitInt((a & 1) as bv1);
    LastBit(a);
  }

  lemma HalfValue(a: bv32)
    ensures U(a >> 1) == U(a) / 2 && (a & 1 == 1 <==> U(a) % 2 == 1)
  {
    hide *;
    Halve(a);
    QuotientIs(U(a), 2, U(a >> 1), if a & 1 == 1 then 1 else 0);
  }

  // ---- the highest bit ----

  predicate Top(a: bv32) { a & 0x80000000 != 0 }
  function Rest(a: bv32): bv32 { a & 0x7fffffff }

  lemma TopInt(a: bv32)
    ensures a as int == (((a & 0x7fffffff) as bv31) as int) + if a & 0x80000000 != 0 then 0x8000_0000 else 0
    ensures (a & 0x7fffffff) as int == ((a & 0x7fffffff) as bv31) as int
  {
  }

  lemma TopValue(a: bv32)
    ensures U(a) == U(Rest(a)) + if Top(a) then 0x8000_0000 else 0
    ensures U(Rest(a)) < 0x8000_0000
  {
    TopInt(a);
  }

  lemma FlipRest(a: bv32)
    ensures Rest(a ^ 0x80000000) == Rest(a) && Top(a ^ 0x80000000) == !Top(a)
  {
  }

  lemma FlipValue(a: bv32)
    ensures U(a ^ 0x80000000) == if U(a) >= 0x8000_0000 then U(a) - 0x8000_0000 else U(a) + 0x8000_0000
  {
    hide *;
    TopValue(a);
    TopValue(a ^ 0x80000000);
    FlipRest(a);
  }

  lemma TwiceInt(a: bv32)
    ensures (a << 1) as int == 2 * (((a & 0x7fffffff) as bv31) as int)
  {
  }

  lemma TwiceIs(a: bv32)
    ensures U(a << 1) == 2 * U(Rest(a))
  {
    TwiceInt(a);
    TopInt(a);
  }

  lemma TwiceValue(a: bv32)
    ensures U(a << 1) == ToWord(2 * U(a))
  {
    hide U, Rest, Top, ToWord;
    TwiceIs(a);
    TopValue(a);
    WordOf(2 * U(a), U(a << 1));
  }

  lemma WordOf(n: int, w: Word32)
    requires n == w || n == w + TWO_32 || n == w - TWO_32
    ensures ToWord(n) == w
  {
    QuotientIs(n, TWO_32, if n == w then 0 else if n < w then -1 else 1, w);
  }

  // ---- sums ----

  lemma NextOfEven(a: bv32)
    ensures a & 1 != 1 ==> a + 1 == a | 1
  {
  }

  lemma OddOnes(a: bv32)
    ensures (a | 1) >> 1 == a >> 1 && (a | 1) & 1 == 1
  {
  }

  lemma NextOfOdd(a: bv32)
    ensures a & 1 == 1 ==> (a + 1) >> 1 == Rest((a >> 1) + 1) && (a + 1) & 1 == 0
  {
  }

  lemma OddValue(a: bv32)
    ensures U(a | 1) == 2 * U(a >> 1) + 1
  {
    hide *;
    OddOnes(a);
    Halve(a | 1);
  }

  lemma OddStep(a: bv32)
    requires a & 1 == 1
    ensures U(a + 1) == 2 * U(Rest((a >> 1) + 1))
  {
    hide *;
    Halve(a + 1);
    NextOfOdd(a);
  }

  /** The value of a + 1. */
  function NextValue(a: bv32): (n: Word32)
    ensures n == U(a + 1)
    ensures n == if U(a) == TWO_32 - 1 then 0 else U(a) + 1
    decreases U(a)
  {
    hide U, Rest, Top;
    Halve(a);
    if a & 1 == 1 then
      var h := NextValue(a >> 1);
      OddStep(a); TopValue((a >> 1) + 1);
      U(a + 1)
    else
      NextOfEven(a); OddValue(a);
      U(a + 1)
  }

  lemma PlusZero(a: bv32, b: bv32)
    ensures b == 0 ==> a + b == a
  {
  }

  lemma ZeroValue(b: bv32)
    ensures U(b) == 0 <==> b == 0
  {
    BackAgain(b);
  }

  /** The value of a + b, counting b down. */
  function SumValue(a: bv32, b: bv32): (n: Word32)
    ensures n == U(a + b)
    ensures n == U(a) + U(b) || n == U(a) + U(b) - TWO_32
    decreases U(b)
  {
    hide *;
    ZeroValue(b);
    if b == 0 then
      PlusZero(a, b);
      U(a + b)
    else
      assert NextValue(b - 1) == U(b);
      var s := SumValue(a, b - 1);
      assert NextValue(a + (b - 1)) == U(a + b);
      U(a + b)
  }

  lemma AddValue(a: bv32, b: bv32)
    ensures U(a + b) == ToWord(U(a) + U(b))
  {
    hide *;
    assert SumValue(a, b) == U(a + b);
    WordOf(U(a) + U(b), U(a + b));
  }

  lemma SubValue(a: bv32, b: bv32)
    ensures U(a - b) == ToWord(U(a) - U(b))
  {
    hide *;
    assert SumValue(a - b, b) == U(a);
    WordOf(U(a) - U(b), U(a - b));
  }

  lemma AllOnes()
    ensures U(0xffffffff) == TWO_32 - 1
  {
  }

  lemma NotValue(a: bv32)
    ensures U(!a) == TWO_32 - 1 - U(a)
  {
    hide *;
    AllOnes();
    assert SumValue(!a, a) == U(0xffffffff);
  }

  // ---- comparisons ----

  predicate Less(a: bv32, b: bv32) { a < b }

  lemma LessIs(a: bv32, b: bv32)
    ensures Less(a, b) == (a < b)
  {
  }

  function Double(a: bv32): bv32 { a << 1 }

  lemma LessBelow(a: bv32, b: bv32)
    ensures Less(a, b) && Top(a) == Top(b) ==> Less(Double(a), Double(b))
  {
  }

  lemma LessBack(a: bv32, b: bv32)
    ensures Less(Double(a), Double(b)) && Top(a) == Top(b) ==> Less(a, b)
  {
  }

  lemma LessAbove(a: bv32, b: bv32)
    ensures Top(a) != Top(b) ==> Less(a, b) == Top(b)
  {
  }

  /** n doublings leave nothing. */
  predicate ShiftsOut(a: bv32, n: nat)
    decreases n
  {
    if n == 0 then a == 0 else ShiftsOut(a << 1, n - 1)
  }

  lemma FourOut(a: bv32, n: nat)
    requires ShiftsOut(a << 4, n)
    ensures ShiftsOut(a, n + 4)
  {
    assert ShiftsOut(a << 3, n + 1) && ShiftsOut(a << 2, n + 2) && ShiftsOut(a << 1, n + 3);
  }

  lemma AllShiftOut(a: bv32)
    ensures ShiftsOut(a, 32)
  {
    assert ShiftsOut(0, 0);
    FourOut(a << 28, 0);
    FourOut(a << 24, 4);
    FourOut(a << 20, 8);
    FourOut(a << 16, 12);
    FourOut(a << 12, 16);
    FourOut(a << 8, 20);
    FourOut(a << 4, 24);
    FourOut(a, 28);
  }

  lemma NotLess(a: bv32, b: bv32)
    ensures a == 0 && b == 0 ==> !Less(a, b) && U(a) == U(b)
  {
  }

  lemma {:induction false} LessFrom(a: bv32, b: bv32, n: nat)
    requires ShiftsOut(a, n) && ShiftsOut(b, n)
    ensures Less(a, b) <==> U(a) < U(b)
    decreases n
  {
    hide U, Less, Top, Rest;
    if n == 0 {
      NotLess(a, b);
    } else {
      LessBelow(a, b);
      LessBack(a, b);
      LessAbove(a, b);
      TopValue(a);
      TopValue(b);
      TwiceIs(a);
      TwiceIs(b);
      LessFrom(a << 1, b << 1, n - 1);
    }
  }

  lemma UnsignedLess(a: bv32, b: bv32)
    ensures a < b <==> U(a) < U(b)
  {
    hide *;
    AllShiftOut(a);
    AllShiftOut(b);
    LessFrom(a, b, 32);
    LessIs(a, b);
  }

  lemma SignedShift(n: Word32)
    ensures Signed(n) == (if n >= 0x8000_0000 then n - 0x8000_0000 else n + 0x8000_0000) - 0x8000_0000
  {
  }

  lemma SignedLess(a: bv32, b: bv32)
    ensures a ^ 0x80000000 < b ^ 0x80000000 <==> Signed(U(a)) < Signed(U(b))
  {
    hide *;
    FlipValue(a);
    FlipValue(b);
    SignedShift(U(a));
    SignedShift(U(b));
    UnsignedLess(a ^ 0x80000000, b ^ 0x80000000);
  }

  // ---- shifts ----
  //
  // The facts are functions, so that they apply to compound words as they stand.

  lemma Numbers()
    ensures U(31) == 31 && U(32) == 32
  {
  }

  function LessFact(a: bv32, b: bv32): (ok: bool)
    ensures ok && (a < b <==> U(a) < U(b))
  {
    hide U, Less;
    UnsignedLess(a, b);
    true
  }

  function TwiceFact(a: bv32): (ok: bool)
    ensures ok && U(a << 1) == ToWord(2 * U(a))
  {
    hide U, ToWord;
    TwiceValue(a);
    true
  }

  function HalfFact(a: bv32): (ok: bool)
    ensures ok && U(a >> 1) == U(a) / 2
  {
    hide U;
    HalfValue(a);
    true
  }

  /** Shifting by a word, all of it out from 32 on. */
  function ShiftedLeft(a: bv32, n: bv32): bv32 { if n < 32 then a << n else 0 }
  function ShiftedRight(a: bv32, n: bv32): bv32 { if n < 32 then a >> n else 0 }

  function NextLeft(a: bv32, n: bv32): (ok: bool)
    ensures ok && (n < 31 ==> ShiftedLeft(a, n + 1) == ShiftedLeft(a, n) << 1)
  {
    true
  }

  function NextRight(a: bv32, n: bv32): (ok: bool)
    ensures ok && (n < 31 ==> ShiftedRight(a, n + 1) == ShiftedRight(a, n) >> 1)
  {
    true
  }

  function NoShift(a: bv32): (ok: bool)
    ensures ok && ShiftedLeft(a, 0) == a && ShiftedRight(a, 0) == a
  {
    true
  }

  function LeftStep(a: bv32, n: bv32): (ok: bool)
    ensures ok && (U(n) < 31 ==> U(ShiftedLeft(a, n + 1)) == ToWord(2 * U(ShiftedLeft(a, n))))
  {
    hide *;
    Numbers();
    assert LessFact(n, 31);
    assert NextLeft(a, n);
    assert TwiceFact(ShiftedLeft(a, n));
    true
  }

  function RightStep(a: bv32, n: bv32): (ok: bool)
    ensures ok && (U(n) < 31 ==> U(ShiftedRight(a, n + 1)) == U(ShiftedRight(a, n)) / 2)
  {
    hide *;
    Numbers();
    assert LessFact(n, 31);
    assert NextRight(a, n);
    assert HalfFact(ShiftedRight(a, n));
    true
  }

  lemma WordTwice(x: int, w: int)
    requires w == ToWord(x)
    ensures ToWord(2 * w) == ToWord(2 * x)
  {
    assert 2 * x == 2 * w + TWO_32 * (2 * (x / TWO_32));
    AddMultiple(2 * w, TWO_32, 2 * (x / TWO_32));
  }

  lemma ShiftedTwice(x: int, w: int, k: nat)
    requires k > 0 && w == ToWord(x * Pow2(k - 1))
    ensures ToWord(2 * w) == ToWord(x * Pow2(k))
  {
    WordTwice(x * Pow2(k - 1), w);
    assert x * Pow2(k) == 2 * (x * Pow2(k - 1));
  }

  lemma TimesOne(x: Word32)
    ensures ToWord(x * Pow2(0)) == x && x / Pow2(0) == x
  {
    WordOf(x, x);
    QuotientIs(x, 1, x, 0);
  }

  /** The value of a word shifted left, one position at a time. */
  function LeftValue(a: bv32, n: bv32): (v: Word32)
    requires U(n) < 32
    ensures v == U(ShiftedLeft(a, n)) == ToWord(U(a) * Pow2(U(n)))
    decreases U(n)
  {
    hide *;
    ZeroValue(n);
    if U(n) == 0 then
      assert NoShift(a);
      TimesOne(U(a));
      U(ShiftedLeft(a, n))
    else
      assert NextValue(n - 1) == U(n);
      var before := LeftValue(a, n - 1);
      assert LeftStep(a, n - 1);
      ShiftedTwice(U(a), before, U(n));
      U(ShiftedLeft(a, n))
  }

  lemma HalfOfQuotient(x: nat, k: nat)
    requires k > 0
    ensures x / Pow2(k - 1) / 2 == x / Pow2(k)
  {
    var p := Pow2(k - 1);
    var q, r := x / p, x % p;
    var h, b := q / 2, q % 2;
    HalfSteps(x, p, q, r, h, b);
    QuotientIs(x, 2 * p, h, b * p + r);
  }

  lemma HalfSteps(x: nat, p: nat, q: nat, r: nat, h: nat, b: nat)
    requires x == p * q + r && r < p && q == 2 * h + b && b < 2
    ensures x == (2 * p) * h + (b * p + r) && b * p + r < 2 * p
  {
    assert p * q == p * (2 * h) + p * b;
  }

  /** The value of a word shifted right. */
  function RightValue(a: bv32, n: bv32): (v: Word32)
    requires U(n) < 32
    ensures v == U(ShiftedRight(a, n)) == U(a) / Pow2(U(n))
    decreases U(n)
  {
    hide *;
    ZeroValue(n);
    if U(n) == 0 then
      assert NoShift(a);
      TimesOne(U(a));
      U(ShiftedRight(a, n))
    else
      assert NextValue(n - 1) == U(n);
      var before := RightValue(a, n - 1);
      assert RightStep(a, n - 1);
      HalfOfQuotient(U(a), U(n));
      U(ShiftedRight(a, n))
  }

  // ---- from integers ----

  function Put(t: bv32, odd: bool): bv32 { (t << 1) | if odd then 1 else 0 }

  function Built(n: nat, k: nat): bv32
    decreases k
  {
    if k == 0 then 0 else Put(Built(n / 2, k - 1), n % 2 == 1)
  }

  lemma PutInt(t: bv32)
    ensures ((t << 1) | 1) as int == ((t << 1) as int) + 1
  {
  }

  lemma PutIs(t: bv32)
    ensures Put(t, false) == t << 1 && Put(t, true) == (t << 1) | 1
  {
  }

  lemma PutOne(t: bv32)
    ensures U((t << 1) | 1) == U(t << 1) + 1
  {
    PutInt(t);
  }

  lemma PutBelow(t: bv32, odd: bool)
    ensures U(Put(t, odd)) == 2 * U(Rest(t)) + if odd then 1 else 0
  {
    hide *;
    PutIs(t);
    PutOne(t);
    TwiceIs(t);
  }

  lemma BuiltNext(n: nat, k: nat)
    requires k > 0
    ensures Built(n, k) == Put(Built(n / 2, k - 1), n % 2 == 1)
  {
  }

  lemma BelowHalf(n: nat, k: nat)
    requires 0 < k <= 32 && n < Pow2(k)
    ensures n / 2 < Pow2(k - 1) <= 0x8000_0000 && n == 2 * (n / 2) + n % 2
  {
    Pow2Grows(k - 1, 31);
    Pow2At31();
  }

  lemma BuiltNone(n: nat)
    requires n < Pow2(0)
    ensures U(Built(n, 0)) == n
  {
  }

  lemma {:induction false} BuiltValue(n: nat, k: nat)
    requires n < Pow2(k) && k <= 32
    ensures U(Built(n, k)) == n
    decreases k
  {
    hide *;
    if k == 0 {
      BuiltNone(n);
    } else {
      var hi := Built(n / 2, k - 1);
      BelowHalf(n, k);
      BuiltValue(n / 2, k - 1);
      TopValue(hi);
      PutBelow(hi, n % 2 == 1);
      BuiltNext(n, k);
    }
  }

  lemma Pow2At31()
    ensures Pow2(31) == 0x8000_0000 && Pow2(32) == TWO_32
  {
    assert Pow2(4) == 16;
    Pow2Sum(4, 4);
    Pow2Sum(8, 8);
    Pow2Sum(16, 15);
    assert Pow2(16) == 2 * Pow2(15);
  }

  lemma BackOf(a: bv32, n: Word32)
    requires U(a) == n
    ensures U(n as bv32) == n
  {
    BackAgain(a);
  }

  /** A number below 2^32 survives becoming a word. */
  lemma BackValue(n: Word32)
    ensures U(n as bv32) == n
  {
    hide *;
    Pow2At31();
    BuiltValue(n, 32);
    BackOf(Built(n, 32), n);
  }

  // ---- the same facts as functions ----

  function AddFact(a: bv32, b: bv32): (ok: bool)
    ensures ok && U(a + b) == ToWord(U(a) + U(b))
  {
    hide *;
    AddValue(a, b);
    true
  }

  function SubFact(a: bv32, b: bv32): (ok: bool)
    ensures ok && U(a - b) == ToWord(U(a) - U(b))
  {
    hide *;
    SubValue(a, b);
    true
  }

  function NotFact(a: bv32): (ok: bool)
    ensures ok && U(!a) == TWO_32 - 1 - U(a)
  {
    hide U;
    NotValue(a);
    true
  }

  function SignedLessFact(a: bv32, b: bv32): (ok: bool)
    ensures ok && (a ^ 0x80000000 < b ^ 0x80000000 <==> Signed(U(a)) < Signed(U(b)))
  {
    hide U, Signed;
    SignedLess(a, b);
    true
  }

  // ---- low bits ----

  lemma WithoutRemainder(x: Word32, p: nat)
    requires p > 0
    ensures ToWord(x / p * p) == x - x % p
  {
    var q, r := x / p, x % p;
    assert x == p * q + r && q * p == p * q;
    WordOf(q * p, x - r);
  }

  /** Shifting out the low n bits and back clears them. */
  lemma ClearValue(a: bv32, n: bv32)
    requires U(n) < 32
    ensures U(ShiftedLeft(ShiftedRight(a, n), n)) == U(a) - U(a) % Pow2(U(n))
  {
    hide *;
    assert RightValue(a, n) == U(a) / Pow2(U(n));
    assert LeftValue(ShiftedRight(a, n), n) == ToWord(U(ShiftedRight(a, n)) * Pow2(U(n)));
    WithoutRemainder(U(a), Pow2(U(n)));
  }
}

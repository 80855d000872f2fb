/**
 The multiply and divide results of hvl/rvfimon.v against the exact products and quotients of chapter 6
 of the RISC-V manual (version 2.2), and against the software division of testcode/src/comp2.c.

 DIV and REM are written in the monitor as nested conditionals whose other branches are concatenations.
 By sections 11.8.1 and 11.8.2 of IEEE 1800-2017 one unsigned branch makes the whole conditional
 unsigned, and that propagates into `$signed(a) / $signed(b)`: the last branch divides without sign.
 */
module MExtension {
  import opened Arithmetic
  import opened MachineWords
  import opened SoftDivision

  const HALF := 0x8000_0000

  // ---- the monitor's expressions ----

  /** {{32{a[31]}}, a} */
  function SignExtend64(a: Word32): Word64 { if a < HALF then a else a + (TWO_64 - TWO_32) }

  /** A 64-bit product shifted right by 32. */
  function High(a: Word64, b: Word64): Word32 { (a * b % TWO_64) / TWO_32 }

  function Mul(a: Word32, b: Word32): Word32 { ToWord(a * b) }

  function Mulh(a: Word32, b: Word32): Word32 { High(SignExtend64(a), SignExtend64(b)) }

  function Mulhsu(a: Word32, b: Word32): Word32 { High(SignExtend64(a), b) }

  function Mulhu(a: Word32, b: Word32): Word32 { High(a, b) }

  function Divu(a: Word32, b: Word32): Word32 {
    if b == 0 then TWO_32 - 1 else QuotientBounded(a, b); a / b
  }

  function Remu(a: Word32, b: Word32): Word32 { if b == 0 then a else a % b }

  predicate Overflow(a: Word32, b: Word32) { a == HALF && b == TWO_32 - 1 }

  function Div(a: Word32, b: Word32): Word32 {
    if b == 0 then TWO_32 - 1
    else if Overflow(a, b) then HALF
    else QuotientBounded(a, b); a / b
  }

  function Rem(a: Word32, b: Word32): Word32 {
    if b == 0 then a
    else if Overflow(a, b) then 0
    else a % b
  }

  // ---- products ----

  /** A factor congruent modulo 2^64 gives a congruent product. */
  lemma CongruentProduct(x: int, y: int, s: int, t: int)
    ensures ((x + TWO_64 * s) * (y + TWO_64 * t)) % TWO_64 == (x * y) % TWO_64
  {
    var k := x * t + s * y + TWO_64 * (s * t);
    assert (x + TWO_64 * s) * (y + TWO_64 * t) == x * y + TWO_64 * k;
    AddMultiple(x * y, TWO_64, k);
  }

  function Wraps(a: Word32): int { if a < HALF then 0 else 1 }

  lemma HighBits(p: int)
    ensures (p % TWO_64) % TWO_32 == p % TWO_32
    ensures 0 <= p < TWO_64 ==> p % TWO_64 == p
    ensures (p % TWO_64) / TWO_32 < TWO_32
  {
    var k, q, low := p / TWO_64, p % TWO_64 / TWO_32, p % TWO_64 % TWO_32;
    assert p == TWO_32 * (TWO_32 * k + q) + low;
    QuotientIs(p, TWO_32, TWO_32 * k + q, low);
    if 0 <= p < TWO_64 {
      QuotientIs(p, TWO_64, 0, p);
    }
  }

  lemma SignedProductRange(x: int, y: int)
    requires -HALF <= x < HALF && -HALF <= y < TWO_32
    ensures -(TWO_64 / 2) <= x * y < TWO_64 / 2
  {
    if x >= 0 && y >= 0 {
      MulBound(x, y, HALF - 1, TWO_32 - 1);
    } else if x < 0 && y >= 0 {
      MulBound(-x, y, HALF, TWO_32 - 1);
      assert x * y == -((-x) * y);
    } else if x >= 0 && y < 0 {
      MulBound(x, -y, HALF - 1, HALF);
      assert x * y == -(x * (-y));
    } else {
      MulBound(-x, -y, HALF, HALF);
      assert x * y == (-x) * (-y);
    }
  }

  lemma MulBound(x: nat, y: nat, m: nat, n: nat)
    requires x <= m && y <= n
    ensures 0 <= x * y <= m * n
  {
  }

  /** Reassembling the two halves of a 64-bit two's complement product. */
  lemma Halves(p: int, hi: Word32, lo: Word32)
    requires -(TWO_64 / 2) <= p < TWO_64 / 2
    requires hi == (p % TWO_64) / TWO_32 && lo == p % TWO_32
    ensures Signed(hi) * TWO_32 + lo == p
  {
  }

  lemma LowHalf(a: Word32, b: Word32, s: int, t: int)
    ensures ((a - TWO_32 * s) * (b - TWO_32 * t)) % TWO_32 == Mul(a, b)
  {
    var k := a * t + s * b - TWO_32 * (s * t);
    assert (a - TWO_32 * s) * (b - TWO_32 * t) == a * b + TWO_32 * (-k);
    AddMultiple(a * b, TWO_32, -k);
  }

  /** MULH and MUL together are the exact signed product. */
  lemma MulhExact(a: Word32, b: Word32)
    ensures Signed(Mulh(a, b)) * TWO_32 + Mul(a, b) == Signed(a) * Signed(b)
  {
    var p := Signed(a) * Signed(b);
    SignedProductRange(Signed(a), Signed(b));
    CongruentProduct(Signed(a), Signed(b), Wraps(a), Wraps(b));
    LowHalf(a, b, Wraps(a), Wraps(b));
    Halves(p, Mulh(a, b), Mul(a, b));
  }

  /** MULHSU and MUL together are the exact product of a signed and an unsigned word. */
  lemma MulhsuExact(a: Word32, b: Word32)
    ensures Signed(Mulhsu(a, b)) * TWO_32 + Mul(a, b) == Signed(a) * b
  {
    var p := Signed(a) * b;
    SignedProductRange(Signed(a), b);
    CongruentProduct(Signed(a), b, Wraps(a), 0);
    LowHalf(a, b, Wraps(a), 0);
    Halves(p, Mulhsu(a, b), Mul(a, b));
  }

  /** MULHU and MUL together are the exact unsigned product. */
  lemma MulhuExact(a: Word32, b: Word32)
    ensures Mulhu(a, b) * TWO_32 + Mul(a, b) == a * b
  {
    MulBound(a, b, TWO_32 - 1, TWO_32 - 1);
    HighBits(a * b);
  }

  // ---- quotients ----

  /** Section 6.2: division rounding toward zero; -1 for a zero divisor; overflow returns the dividend. */
  function ManualDiv(a: Word32, b: Word32): Word32 {
    if b == 0 then TWO_32 - 1 else ToWord(TruncDiv(Signed(a), Signed(b)))
  }

  /** Section 6.2: the remainder has the sign of the dividend; the dividend for a zero divisor. */
  function ManualRem(a: Word32, b: Word32): Word32 {
    if b == 0 then a else ToWord(TruncMod(Signed(a), Signed(b)))
  }

  /** The overflow case of the manual, -2^31 / -1, is what truncation modulo 2^32 gives. */
  lemma ManualOverflow()
    ensures ManualDiv(HALF, TWO_32 - 1) == HALF && ManualRem(HALF, TWO_32 - 1) == 0
  {
  }

  /** Were their last branch signed, the monitor's conditionals would be the manual's for all operands. */
  lemma SignedBranchWouldAgree(a: Word32, b: Word32)
    ensures ManualDiv(a, b) ==
            if b == 0 then TWO_32 - 1 else if Overflow(a, b) then HALF else ToWord(TruncDiv(Signed(a), Signed(b)))
    ensures ManualRem(a, b) ==
            if b == 0 then a else if Overflow(a, b) then 0 else ToWord(TruncMod(Signed(a), Signed(b)))
  {
  }

  lemma WrapWord(i: int)
    ensures ToWord(Wrap32(i)) == ToWord(i)
  {
  }

  /** __udivsi3 is DIVU exactly for nonzero divisors. */
  method SoftDivu(a: Word32, b: Word32) returns (q: Word32)
    ensures q == Divu(a, b) <==> b != 0
  {
    var s := UDivSI3(Signed(a), Signed(b));
    SignedWord(s, a);
    SignedWord(s, b);
    q := ToWord(s);
  }

  /** __umodsi3 is REMU for every divisor. */
  method SoftRemu(a: Word32, b: Word32) returns (r: Word32)
    ensures r == Remu(a, b)
  {
    var s := UModSI3(Signed(a), Signed(b));
    SignedWord(s, a);
    SignedWord(s, b);
    r := ToWord(s);
  }

  /** Where dividing the words without sign gives the signed quotient. */
  predicate DivSignFree(a: Word32, b: Word32) {
    || b == 0 || Overflow(a, b)
    || (a < HALF && b < HALF)
    || (a >= HALF && b == 1)
    || (a < HALF && b >= HALF && a < TWO_32 - b)
    || (b >= HALF && a == b)
  }

  /** Where the unsigned remainder is the signed one; for a negative dividend and a positive divisor, where the
      divisor is a power of two and divides the dividend. */
  predicate RemSignFree(a: Word32, b: Word32) {
    || b == 0 || Overflow(a, b)
    || (a < HALF && b < HALF)
    || (a >= HALF && 0 < b < HALF && TWO_32 % b == 0 && a % b == 0)
    || (a < HALF && b >= HALF && a < TWO_32 - b)
    || (b >= HALF && a == b)
  }

  /** A quotient below 1, of 1, or at most half the dividend. */
  lemma QuotientCases(a: nat, b: nat)
    requires b > 0
    ensures a < b ==> a / b == 0 && a % b == a
    ensures b <= a < 2 * b ==> a / b == 1 && a % b == a - b
    ensures b >= 2 ==> 2 * (a / b) <= a
    ensures b == 1 ==> a / b == a && a % b == 0
    ensures a >= b ==> a / b >= 1
  {
    var q, r := a / b, a % b;
    assert a == b * q + r && r < b;
    CasesOf(a, b, q, r);
  }

  lemma CasesOf(a: nat, b: nat, q: nat, r: nat)
    requires a == b * q + r && r < b
    ensures a < b ==> q == 0 && r == a
    ensures b <= a < 2 * b ==> q == 1 && r == a - b
    ensures b >= 2 ==> 2 * q <= a
    ensures a >= b ==> q >= 1
  {
    if q >= 1 {
      MulBound(1, q, b, q);
      MulBound(b, 1, b, q);
      if q >= 2 { MulBound(b, 2, b, q); }
    }
    if b >= 2 { MulBound(2, q, b, q); }
  }

  /** The comparison behind NegativeByPositive, on the bare quotients (u, q) and remainders (v, r). */
  lemma NegatedWord(a: Word32, b: Word32, q: int, r: int, u: int, v: int)
    requires a >= HALF && 0 < b < HALF && 1 <= u && 0 <= q && 0 <= r < b && 0 <= v < b
    requires b == 1 ==> u == a && q == TWO_32 - a && v == 0 && r == 0
    requires b >= 2 ==> u <= a / 2 && q <= (TWO_32 - a) / 2
    ensures u == ToWord(-q) <==> b == 1
    ensures v == ToWord(-r) <==> r == 0 && v == 0
  {
  }

  /** A divisor of a divides 2^32 - a exactly if it divides 2^32. */
  lemma DividesBoth(a: int, b: nat)
    requires b > 0 && a % b == 0
    ensures (TWO_32 - a) % b == TWO_32 % b
  {
    var q := a / b;
    assert a == b * q && b * (-q) == -a;
    AddMultiple(TWO_32, b, -q);
  }

  /** Negative dividend, positive divisor: the unsigned quotient is right only for divisor 1 ... */
  lemma NegativeByPositive(a: Word32, b: Word32)
    requires a >= HALF && 0 < b < HALF
    ensures a / b == ManualDiv(a, b) <==> b == 1
    ensures a % b == ManualRem(a, b) <==> TWO_32 % b == 0 && a % b == 0
  {
    var m := TWO_32 - a;
    QuotientCases(a, b);
    QuotientCases(m, b);
    NegatedWord(a, b, m / b, m % b, a / b, a % b);
    if a % b == 0 { DividesBoth(a, b); }
    assert Signed(a) == -m && Signed(b) == b;
  }

  /** The comparison behind PositiveByNegative: the unsigned results are 0 and a. */
  lemma NegatedQuotient(a: Word32, n: int, q: int, r: int)
    requires a < HALF && 0 < n <= HALF && 0 <= q <= a && 0 <= r < n
    requires a < n ==> q == 0 && r == a
    requires a >= n ==> q >= 1
    ensures 0 == ToWord(-q) <==> a < n
    ensures a == ToWord(r) <==> a < n
  {
  }

  /** ... positive dividend, negative divisor: only if the quotient is 0 ... */
  lemma PositiveByNegative(a: Word32, b: Word32)
    requires a < HALF <= b
    ensures a / b == ManualDiv(a, b) <==> a < TWO_32 - b
    ensures a % b == ManualRem(a, b) <==> a < TWO_32 - b
  {
    var n := TWO_32 - b;
    QuotientCases(a, b);
    QuotientCases(a, n);
    QuotientBounded(a, n);
    NegatedQuotient(a, n, a / n, a % n);
    assert Signed(a) == a && Signed(b) == -n;
  }

  lemma RemainderBelow(a: nat, n: nat)
    requires n > 0
    ensures a >= n ==> a % n < a
  {
  }

  /** ... both negative: only if they are equal. */
  lemma NegativeByNegative(a: Word32, b: Word32)
    requires a >= HALF && b >= HALF && !Overflow(a, b)
    ensures a / b == ManualDiv(a, b) <==> a == b
    ensures a % b == ManualRem(a, b) <==> a == b
  {
    var m, n := TWO_32 - a, TWO_32 - b;
    QuotientCases(a, b);
    QuotientCases(m, n);
    QuotientBounded(m, n);
    if m >= n { RemainderBelow(m, n); }
    assert Signed(a) == -m && Signed(b) == -n;
    QuotientsOfEqualSign(a, b, m / n, m % n, a / b, a % b);
  }

  /** The comparison behind NegativeByNegative, on the bare quotients (q, u) and remainders (r, v). */
  lemma QuotientsOfEqualSign(a: Word32, b: Word32, q: int, r: int, u: int, v: int)
    requires a >= HALF && b >= HALF && !Overflow(a, b)
    requires 0 <= q <= TWO_32 - a && 0 <= r < TWO_32 - b
    requires a < b ==> u == 0 && v == a && q >= 1 && r < TWO_32 - a
    requires a == b ==> u == 1 && v == 0 && q == 1 && r == 0
    requires a > b ==> u == 1 && v == a - b && q == 0 && r == TWO_32 - a
    requires b < TWO_32 - 1 ==> q <= (TWO_32 - a) / 2
    ensures u == ToWord(q) <==> a == b
    ensures v == ToWord(-r) <==> a == b
  {
  }

  /** The monitor's DIV is the manual's exactly on these operands. */
  lemma MonitorDivExact(a: Word32, b: Word32)
    ensures Div(a, b) == ManualDiv(a, b) <==> DivSignFree(a, b)
  {
    if b == 0 || Overflow(a, b) {
      ManualOverflow();
    } else if a < HALF && b < HALF {
      QuotientBounded(a, b);
    } else if b < HALF {
      NegativeByPositive(a, b);
    } else if a < HALF {
      PositiveByNegative(a, b);
    } else {
      NegativeByNegative(a, b);
    }
  }

  /** The monitor's REM is the manual's exactly on these operands. */
  lemma MonitorRemExact(a: Word32, b: Word32)
    ensures Rem(a, b) == ManualRem(a, b) <==> RemSignFree(a, b)
  {
    if b == 0 || Overflow(a, b) {
      ManualOverflow();
    } else if a < HALF && b < HALF {
      assert a % b < b;
    } else if b < HALF {
      NegativeByPositive(a, b);
    } else if a < HALF {
      PositiveByNegative(a, b);
    } else {
      NegativeByNegative(a, b);
    }
  }

  /** __divsi3 is the manual's DIV exactly for nonzero divisors, and the monitor's where that is sign-free. */
  method SoftDiv(a: Word32, b: Word32) returns (q: Word32)
    ensures q == ManualDiv(a, b) <==> b != 0
    ensures q == Div(a, b) <==> b != 0 && DivSignFree(a, b)
  {
    var s := DivSI3(Signed(a), Signed(b));
    SignedWord(s, a);
    q := ToWord(s);
    if b != 0 {
      WrapWord(TruncDiv(Signed(a), Signed(b)));
      MonitorDivExact(a, b);
    }
  }

  /** __modsi3 is the manual's REM for every divisor, zero included. */
  method SoftRem(a: Word32, b: Word32) returns (r: Word32)
    ensures r == ManualRem(a, b)
    ensures r == Rem(a, b) <==> RemSignFree(a, b)
  {
    var s := ModSI3(Signed(a), Signed(b));
    SignedWord(s, a);
    r := ToWord(s);
    if b != 0 {
      WrapWord(TruncMod(Signed(a), Signed(b)));
    }
    MonitorRemExact(a, b);
  }

  /** -7 / 2 and -7 % 2: the monitor expects 2147483644 and 1, the manual -3 and -1. */
  lemma MonitorDivWitness()
    ensures Div(TWO_32 - 7, 2) == 2147483644 && ManualDiv(TWO_32 - 7, 2) == TWO_32 - 3
    ensures Rem(TWO_32 - 7, 2) == 1 && ManualRem(TWO_32 - 7, 2) == TWO_32 - 1
  {
  }
}

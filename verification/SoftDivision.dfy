/**
 The shift-and-subtract division of testcode/src/comp2.c (`__udivmodsi4` and its wrappers) on 32-bit
 words.  `unsigned long` and `long` are 32 bits wide; negation and conversions wrap around.
 */
module SoftDivision {
  import opened Arithmetic
  import opened MachineWords

  /** What __udivmodsi4 leaves: the exact result, or for a zero divisor what the loops fall through with. */
  function Quotient(num: Word32, den: Word32): Word32 {
    if den == 0 then (if num == 0 then 1 else 0)
    else QuotientBounded(num, den); num / den
  }

  function Remainder(num: Word32, den: Word32): Word32 {
    if den == 0 then num else num % den
  }

  /** `res | bit` for a single bit. */
  function SetBit(res: nat, bit: nat): nat
    requires bit > 0
  {
    if (res / bit) % 2 == 1 then res else res + bit
  }

  lemma SetClearBit(res: nat, bit: nat)
    requires bit > 0 && res % (2 * bit) == 0
    ensures SetBit(res, bit) == res + bit
  {
    var q := res / (2 * bit);
    assert res == bit * (2 * q);
    QuotientIs(res, bit, 2 * q, 0);
  }

  /** The shifted divisor and its bit: den * 2^i without loss, or a zero divisor whose bit is running out. */
  ghost predicate Shifted(den: Word32, d: Word32, bit: Word32, i: nat) {
    if den == 0 then d == 0 && i <= 32 && bit == (if i < 32 then Pow2(i) else 0)
    else i < 32 && bit == Pow2(i) && d == den * Pow2(i)
  }

  lemma {:induction false} Pow2Below32(i: nat)
    ensures i >= 32 ==> Pow2(i) >= TWO_32
    ensures i < 32 ==> 2 * Pow2(i) <= TWO_32
    ensures i == 31 ==> 2 * Pow2(i) == TWO_32
  {
    Pow2Is2To31();
    if i < 31 {
      Pow2Grows(i + 1, 31);
    } else if i >= 32 {
      Pow2Grows(32, i);
    }
  }

  lemma Pow2Is2To31()
    ensures Pow2(31) == 0x8000_0000 && Pow2(32) == TWO_32
  {
    assert Pow2(4) == 16;
    Pow2Sum(4, 4);
    Pow2Sum(8, 8);
    Pow2Sum(16, 15);
    assert Pow2(16) == 2 * Pow2(15);
  }

  /** One turn of the first loop: no bit of the divisor is shifted out. */
  lemma ShiftUp(den: Word32, d: Word32, bit: Word32, i: nat)
    requires Shifted(den, d, bit, i) && bit != 0 && d < 0x8000_0000
    ensures Shifted(den, d * 2 % TWO_32, bit * 2 % TWO_32, i + 1)
  {
    Pow2Below32(i);
    Pow2Below32(i + 1);
    if den > 0 {
      DivisorDoubles(den, i);
    }
  }

  lemma DivisorDoubles(den: Word32, i: nat)
    requires den > 0 && den * Pow2(i) < 0x8000_0000
    ensures den * Pow2(i + 1) == 2 * (den * Pow2(i)) && Pow2(i) < 0x8000_0000 && i + 1 < 32
  {
    var p := Pow2(i);
    assert den * p >= p by { MultipleAtLeast(p, den); Commute(p, den); }
    Distribute(den, p, p);
    assert Pow2(i + 1) == p + p;
    Pow2Below32(i);
    Pow2Below32(i + 1);
  }

  lemma Commute(x: int, y: int)
    ensures x * y == y * x
  {
  }

  lemma Distribute(x: int, y: int, z: int)
    ensures x * (y + z) == x * y + x * z
  {
  }

  /** Second loop: the quotient so far is a multiple of the next bit, and the rest is below twice the divisor. */
  ghost predicate Dividing(num: Word32, den: Word32, n: int, d: int, bit: int, res: int, i: int) {
    && 0 <= n && 0 <= res && num == n + den * res
    && (bit != 0 ==> i >= 0 && bit == Pow2(i) && d == den * bit && res % (2 * bit) == 0 && n < 2 * d)
    && (bit == 0 ==> n < den)
  }

  lemma LowBitsClear(res: nat, bit: nat)
    requires bit > 0 && res % (2 * bit) == 0
    ensures res % bit == 0 && (res + bit) % bit == 0
  {
    var q := res / (2 * bit);
    assert res == bit * (2 * q) && res + bit == bit * (2 * q + 1);
    QuotientIs(res, bit, 2 * q, 0);
    QuotientIs(res + bit, bit, 2 * q + 1, 0);
  }

  lemma DivideStep(num: Word32, den: Word32, n: int, d: int, bit: int, res: int, i: int)
    requires den > 0 && bit > 0 && Dividing(num, den, n, d, bit, res, i)
    ensures n >= d ==> SetBit(res, bit) == res + bit
    ensures var n' := if n >= d then n - d else n;
            var res' := if n >= d then res + bit else res;
            Dividing(num, den, n', d / 2, bit / 2, res', i - 1)
  {
    SetClearBit(res, bit);
    LowBitsClear(res, bit);
    assert den * (res + bit) == den * res + d by { Distribute(den, res, bit); }
    if i > 0 {
      var half := Pow2(i - 1);
      Distribute(den, half, half);
      assert bit == 2 * half && d == 2 * (den * half);
      assert bit / 2 == half && d / 2 == den * half && 2 * (bit / 2) == bit;
    } else {
      assert bit == 1 && d == den;
    }
  }

  /** __udivmodsi4 */
  method UDivModSI4(num: Word32, den: Word32, modWanted: bool) returns (r: Word32)
    ensures r == if modWanted then Remainder(num, den) else Quotient(num, den)
  {
    var n, d, bit, res: nat := num, den, 1, 0;
    ghost var i := 0;
    while d < n && bit != 0 && !(d >= 0x8000_0000)
      invariant 0 <= d < TWO_32 && 0 <= bit < TWO_32
      invariant Shifted(den, d, bit, i)
      invariant den == 0 && n == 0 ==> bit == 1
      decreases 32 - i
    {
      ShiftUp(den, d, bit, i);
      Pow2Below32(i);
      d := d * 2 % TWO_32;
      bit := bit * 2 % TWO_32;
      i := i + 1;
    }
    if den > 0 {
      assert Dividing(num, den, n, d, bit, res, i);
    }
    ghost var j: int := i;
    while bit != 0
      invariant 0 <= bit && 0 <= n <= num && 0 <= d
      invariant den > 0 ==> Dividing(num, den, n, d, bit, res, j)
      invariant den == 0 ==> d == 0 && n == num && (if num == 0 then bit + res == 1 && bit * res == 0 else bit == 0 && res == 0)
      decreases bit
    {
      if den > 0 { DivideStep(num, den, n, d, bit, res, j); }
      if n >= d {
        n := n - d;
        res := SetBit(res, bit);
      }
      bit := bit / 2;
      d := d / 2;
      j := j - 1;
    }
    if den > 0 {
      QuotientIs(num, den, res, n);
    }
    if modWanted { return n; }
    return res;
  }

  /** The magnitude of a wrapped negation, as the unsigned operand of the division. */
  lemma Magnitude(a: Int32)
    ensures ToWord(if a < 0 then Negate(a) else a) == Abs(a)
  {
  }

  lemma SignBack(q: Word32)
    ensures Negate(Wrap32(q)) == Wrap32(0 - q)
  {
    var k := if q == 0 then 0 else -1;
    QuotientIs(0 - q, TWO_32, k, 0 - q - TWO_32 * k);
  }

  /** The signs put back by the wrappers are those of the truncated results. */
  lemma SignedQuotient(a: Int32, b: Int32)
    requires b != 0
    ensures var q := Wrap32(Quotient(Abs(a), Abs(b)));
            (if (a < 0) != (b < 0) then Negate(q) else q) == Wrap32(TruncDiv(a, b))
  {
    SignBack(Quotient(Abs(a), Abs(b)));
  }

  lemma SignedRemainder(a: Int32, b: Int32)
    requires b != 0
    ensures var r := Wrap32(Remainder(Abs(a), Abs(b)));
            (if a < 0 then Negate(r) else r) == Wrap32(TruncMod(a, b))
  {
    SignBack(Remainder(Abs(a), Abs(b)));
  }

  /** __divsi3 */
  method DivSI3(a: Int32, b: Int32) returns (res: Int32)
    ensures res == if b == 0 then (if a == 0 then 1 else 0) else Wrap32(TruncDiv(a, b))
  {
    Magnitude(a);
    Magnitude(b);
    var x, y := a, b;
    var neg := false;
    if x < 0 {
      x := Negate(x);
      neg := !neg;
    }
    if y < 0 {
      y := Negate(y);
      neg := !neg;
    }
    var q := UDivModSI4(ToWord(x), ToWord(y), false);
    if b != 0 { SignedQuotient(a, b); }
    res := Wrap32(q);
    if neg {
      res := Negate(res);
    }
  }

  /** __modsi3 */
  method ModSI3(a: Int32, b: Int32) returns (res: Int32)
    ensures res == if b == 0 then a else Wrap32(TruncMod(a, b))
  {
    Magnitude(a);
    Magnitude(b);
    var x, y := a, b;
    var neg := false;
    if x < 0 {
      x := Negate(x);
      neg := true;
    }
    if y < 0 {
      y := Negate(y);
    }
    var q := UDivModSI4(ToWord(x), ToWord(y), true);
    if b != 0 { SignedRemainder(a, b); } else { SignBack(Abs(a)); }
    res := Wrap32(q);
    if neg {
      res := Negate(res);
    }
  }

  lemma WordBack(w: Word32)
    ensures ToWord(Wrap32(w)) == w
  {
    SignedWord(0, w);
  }

  /** __udivsi3: the arguments are read, and the result returned, as the same 32 bits. */
  method UDivSI3(a: Int32, b: Int32) returns (res: Int32)
    ensures ToWord(res) == Quotient(ToWord(a), ToWord(b))
  {
    var q := UDivModSI4(ToWord(a), ToWord(b), false);
    WordBack(q);
    res := Wrap32(q);
  }

  /** __umodsi3 */
  method UModSI3(a: Int32, b: Int32) returns (res: Int32)
    ensures ToWord(res) == Remainder(ToWord(a), ToWord(b))
  {
    var r := UDivModSI4(ToWord(a), ToWord(b), true);
    WordBack(r);
    res := Wrap32(r);
  }

  // ---- multiplication ----

  /** One turn keeps the unwrapped sum r + a * b. */
  lemma MultiplyStep(a: nat, b: nat, r: nat)
    ensures r + a * b == (if a % 2 == 1 then r + b else r) + (a / 2) * (2 * b)
  {
  }

  /** Reducing early does not change the reduced sum, or the reduced double. */
  lemma ReduceEarly(x: nat, y: nat)
    ensures (x % TWO_64 + y % TWO_64) % TWO_64 == (x + y) % TWO_64
    ensures (x % TWO_64) * 2 % TWO_64 == (2 * x) % TWO_64
  {
  }

  /** __muldi3: shift-and-add, every intermediate value reduced modulo 2^64. */
  method MulDI3(a0: Word64, b0: Word64) returns (r: Word64)
    ensures r == a0 * b0 % TWO_64
  {
    var a, b := a0, b0;
    r := 0;
    ghost var exactB: nat, exactR: nat := b0, 0;
    while a != 0
      invariant 0 <= a && b == exactB % TWO_64 && r == exactR % TWO_64
      invariant exactR + a * exactB == a0 * b0
      decreases a
    {
      MultiplyStep(a, exactB, exactR);
      ReduceEarly(exactR, exactB);
      ReduceEarly(exactB, exactB);
      if a % 2 == 1 {
        r := (r + b) % TWO_64;
        exactR := exactR + exactB;
      }
      a := a / 2;
      b := b * 2 % TWO_64;
      exactB := 2 * exactB;
    }
  }
}

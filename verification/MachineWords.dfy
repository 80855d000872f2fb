/** 32- and 64-bit machine words as integers, and C's truncating division. */
module MachineWords {
  import opened Arithmetic

  const TWO_32 := 0x1_0000_0000
  const TWO_64 := 0x1_0000_0000_0000_0000

  type Word32 = w: int | 0 <= w < TWO_32
  type Word64 = w: int | 0 <= w < TWO_64
  type Int32 = i: int | -0x8000_0000 <= i < 0x8000_0000

  /** The word with the low 32 bits of `i`. */
  function ToWord(i: int): Word32 { i % TWO_32 }

  /** The word read as two's complement. */
  function Signed(w: Word32): Int32 { if w < 0x8000_0000 then w else w - TWO_32 }

  /** Conversion to a signed 32-bit type: wrap around. */
  function Wrap32(i: int): Int32 { Signed(ToWord(i)) }

  /** `-i` on 32 bits: the most negative value is its own negation. */
  function Negate(i: Int32): Int32 { Wrap32(0 - (i as int)) }

  function Abs(i: int): nat { if i < 0 then -i else i }

  /** C's `/` and `%`: the quotient truncates toward zero. */
  function TruncDiv(a: int, b: int): int
    requires b != 0
  {
    var q := Abs(a) / Abs(b);
    if (a < 0) == (b < 0) then q else -q
  }

  function TruncMod(a: int, b: int): int
    requires b != 0
  {
    var r := Abs(a) % Abs(b);
    if a < 0 then -r else r
  }

  /** The two results belong together, and the remainder is smaller than the divisor. */
  lemma TruncDivMod(a: int, b: int)
    requires b != 0
    ensures a == b * TruncDiv(a, b) + TruncMod(a, b)
    ensures Abs(TruncMod(a, b)) < Abs(b) && Abs(TruncDiv(a, b)) <= Abs(a)
  {
    var m, n := Abs(a), Abs(b);
    var q, r := m / n, m % n;
    assert m == n * q + r;
    QuotientBounded(m, n);
    SignRule(n, q);
  }

  lemma SignRule(n: int, q: int)
    ensures (-n) * q == -(n * q) && n * (-q) == -(n * q) && (-n) * (-q) == n * q
  {
  }

  lemma QuotientBounded(a: nat, b: nat)
    requires b > 0
    ensures a / b <= a
  {
    if a / b > 0 {
      MultipleAtLeast(a / b, b);
    }
  }

  lemma SignedWord(i: Int32, w: Word32)
    ensures Signed(ToWord(i)) == i && ToWord(Signed(w)) == w
  {
  }

  predicate FitsInt(i: int) { -0x8000_0000 <= i < 0x8000_0000 }

  lemma WrapSmall(i: int)
    requires FitsInt(i)
    ensures Wrap32(i) == i
  {
  }

  /** Wrapping early changes nothing after another wrap. */
  lemma WrapLate(x: int, d: int)
    ensures Wrap32(Wrap32(x) + d) == Wrap32(x + d)
  {
    AddMultiple(ToWord(x) + d, TWO_32, x / TWO_32);
    AddMultiple(ToWord(x) + d, TWO_32, -1);
  }
}

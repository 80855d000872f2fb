/** Powers of two and the few facts about quotients that the other modules share. */
module Arithmetic {

  function Pow2(k: nat): (n: nat)
    ensures n > 0
  {
    if k == 0 then 1 else 2 * Pow2(k - 1)
  }

  lemma {:induction false} Pow2Sum(a: nat, b: nat)
    ensures Pow2(a + b) == Pow2(a) * Pow2(b)
  {
    if a > 0 {
      Pow2Sum(a - 1, b);
    }
  }

  lemma {:induction false} Pow2Grows(a: nat, b: nat)
    requires a <= b
    ensures Pow2(a) <= Pow2(b)
  {
    if a < b {
      Pow2Grows(a, b - 1);
    }
  }

  lemma {:induction false} MultipleAtLeast(b: nat, n: nat)
    requires n > 0
    ensures b * n >= b
  {
  }

  lemma QuotientUnique(b: nat, q: int, d: int, r: nat)
    requires b * q == b * d + r && r < b
    ensures q == d
  {
    if q > d {
      MultipleAtLeast(b, q - d);
    } else if q < d {
      MultipleAtLeast(b, d - q);
    }
  }

  lemma DivideOut(b: nat, q: nat)
    requires b > 0
    ensures b * q % b == 0 && b * q / b == q
  {
    var x := b * q;
    QuotientUnique(b, q, x / b, x % b);
  }

  /** Adding a multiple of the divisor changes no remainder. */
  lemma AddMultiple(a: int, d: nat, m: int)
    requires d > 0
    ensures (a + d * m) % d == a % d
  {
    var x := a + d * m;
    assert x == d * (a / d + m) + a % d;
    QuotientIs(x, d, a / d + m, a % d);
  }

  lemma QuotientIs(x: int, b: nat, q: int, r: nat)
    requires r < b && x == b * q + r
    ensures x / b == q && x % b == r
  {
    var d, s := x / b, x % b;
    if s >= r {
      QuotientUnique(b, q, d, s - r);
    } else {
      QuotientUnique(b, d, q, r - s);
    }
  }
}

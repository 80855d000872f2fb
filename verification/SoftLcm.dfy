/**
 `gcd`, `lcm` and `iter` of testcode/src/comp2.c.  `int` is 32 and `long long` 64 bits wide; passing
 the running LCM back to `lcm` narrows it to `int`, which wraps around.
 */
module SoftLcm {
  import opened Arithmetic
  import opened MachineWords

  type Int64 = i: int | -0x8000_0000_0000_0000 <= i < 0x8000_0000_0000_0000

  // ---- divisors and multiples ----

  ghost predicate Divides(d: int, n: int) { exists q: int :: n == d * q }

  /** g is the greatest common divisor of a and b, in the strong sense. */
  ghost predicate IsGcd(g: nat, a: int, b: int) {
    g > 0 && Divides(g, a) && Divides(g, b) && forall d: nat :: Divides(d, a) && Divides(d, b) ==> Divides(d, g)
  }

  ghost predicate CommonMultiple(x: int, s: seq<int>) {
    x > 0 && forall i :: 0 <= i < |s| ==> Divides(s[i], x)
  }

  /** m is the least common multiple of all of s: it divides every other common multiple. */
  ghost predicate IsLcm(m: int, s: seq<int>) {
    CommonMultiple(m, s) && forall x: int :: CommonMultiple(x, s) ==> Divides(m, x)
  }

  lemma DividesSelf(n: int)
    ensures Divides(n, n) && Divides(n, 0)
  {
    assert n == n * 1 && 0 == n * 0;
  }

  lemma DividesCombination(d: int, a: int, b: int, k: int)
    requires Divides(d, a) && Divides(d, b)
    ensures Divides(d, a + b * k)
  {
    var p :| a == d * p;
    var q :| b == d * q;
    assert a + b * k == d * (p + q * k) by { Distribute3(d, p, q, k); }
  }

  lemma Distribute3(d: int, p: int, q: int, k: int)
    ensures d * p + (d * q) * k == d * (p + q * k)
  {
  }

  lemma DividesTrans(a: int, b: int, c: int)
    requires Divides(a, b) && Divides(b, c)
    ensures Divides(a, c)
  {
    var p :| b == a * p;
    var q :| c == b * q;
    assert c == a * (p * q);
  }

  lemma PositiveFactor(d: nat, q: int)
    requires d * q > 0
    ensures q > 0
  {
  }

  // ---- gcd ----

  /** The loop of `gcd`, on any integers. */
  function Euclid(a: int, b: int): int
    decreases Abs(b)
  {
    if a == 0 || b == 0 then (if a != 0 then a else b)
    else
      TruncDivMod(a, b);
      Euclid(b, TruncMod(a, b))
  }

  function CGcd(a: int, b: int): int {
    if a == 0 && b == 0 then 1 else if a < b then Euclid(b, a) else Euclid(a, b)
  }

  lemma {:induction false} EuclidIsGcd(a: int, b: int)
    requires a != 0 || b != 0
    ensures Euclid(a, b) != 0 && IsGcd(Abs(Euclid(a, b)), a, b)
    ensures a >= 0 && b >= 0 ==> Euclid(a, b) > 0
    decreases Abs(b)
  {
    if a == 0 || b == 0 {
      var n := if a != 0 then a else b;
      DividesSelf(Abs(n));
      DividesAbs(Abs(n), n);
      forall d: nat | Divides(d, a) && Divides(d, b)
        ensures Divides(d, Abs(n))
      {
        DividesAbs(d, n);
      }
    } else {
      TruncDivMod(a, b);
      var q, r := TruncDiv(a, b), TruncMod(a, b);
      EuclidIsGcd(b, r);
      GcdStep(Abs(Euclid(b, r)), a, b, q, r);
    }
  }

  lemma DividesAbs(d: int, n: int)
    ensures Divides(d, n) <==> Divides(d, Abs(n))
  {
    if Divides(d, n) {
      var q :| n == d * q;
      assert -n == d * (-q);
    }
    if Divides(d, Abs(n)) {
      var q :| Abs(n) == d * q;
      assert 0 - Abs(n) == d * (-q);
    }
  }

  /** Replacing a by its remainder changes no common divisor. */
  lemma GcdStep(g: nat, a: int, b: int, q: int, r: int)
    requires a == b * q + r && IsGcd(g, b, r)
    ensures IsGcd(g, a, b)
  {
    DividesCombination(g, r, b, q);
    forall d: nat | Divides(d, a) && Divides(d, b)
      ensures Divides(d, g)
    {
      DividesCombination(d, a, b, -q);
      assert a + b * (-q) == r;
    }
  }

  /** `gcd`: never zero; up to sign the greatest common divisor of any two ints not both zero. */
  lemma GcdMeaning(a: int, b: int)
    ensures CGcd(a, b) != 0
    ensures a == b == 0 ==> CGcd(a, b) == 1
    ensures a != 0 || b != 0 ==> IsGcd(Abs(CGcd(a, b)), a, b)
    ensures a >= 0 && b >= 0 ==> CGcd(a, b) > 0
  {
    if a != 0 || b != 0 {
      if a < b {
        EuclidIsGcd(b, a);
      } else {
        EuclidIsGcd(a, b);
      }
    }
  }

  method Gcd(a0: Int32, b0: Int32) returns (r: int)
    ensures r == CGcd(a0, b0)
  {
    var a: int, b: int := a0, b0;
    if a == 0 && b == 0 {
      return 1;
    }
    var rem: int;
    if a < b {
      rem := a;
      a := b;
      b := rem;
    }
    while a != 0 && b != 0
      invariant Euclid(a, b) == CGcd(a0, b0)
      decreases Abs(b)
    {
      TruncDivMod(a, b);
      rem := TruncMod(a, b);
      a := b;
      b := rem;
    }
    return if a != 0 then a else b;
  }

  // ---- lcm ----

  function CLcm(a: int, b: int): int {
    GcdMeaning(a, b);
    a * TruncDiv(b, CGcd(a, b))
  }

  /** Bezout: the greatest common divisor is a combination of the two numbers. */
  lemma {:induction false} Bezout(a: int, b: int) returns (s: int, t: int)
    requires a >= 0 && b >= 0
    ensures Euclid(a, b) == a * s + b * t
    decreases b
  {
    if a == 0 || b == 0 {
      if a != 0 {
        s, t := 1, 0;
      } else {
        s, t := 0, 1;
      }
    } else {
      TruncDivMod(a, b);
      var q, r := TruncDiv(a, b), TruncMod(a, b);
      var s', t' := Bezout(b, r);
      s, t := t', s' - q * t';
      assert b * s' + r * t' == a * s + b * t by {
        assert r == a - b * q;
        CombineBezout(a, b, q, s', t');
      }
    }
  }

  lemma CombineBezout(a: int, b: int, q: int, s: int, t: int)
    ensures b * s + (a - b * q) * t == a * t + b * (s - q * t)
  {
  }

  /** For positive numbers a * (b / gcd) is a multiple of both and divides every common multiple. */
  lemma LcmOfTwo(a: nat, b: nat)
    requires a > 0 && b > 0
    ensures CLcm(a, b) > 0 && Divides(a, CLcm(a, b)) && Divides(b, CLcm(a, b))
    ensures forall x: nat :: Divides(a, x) && Divides(b, x) ==> Divides(CLcm(a, b), x)
  {
    GcdMeaning(a, b);
    var g := CGcd(a, b);
    var u :| a == g * u;
    var v :| b == g * v;
    PositiveFactor(g, u);
    PositiveFactor(g, v);
    QuotientIs(b, g, v, 0);
    var m := CLcm(a, b);
    assert m == a * v;
    MultipleAtLeast(a, v);
    assert m == b * u by { assert (g * u) * v == (g * v) * u; }
    forall x: nat | Divides(a, x) && Divides(b, x)
      ensures Divides(m, x)
    {
      var s, t: int;
      if a < b {
        t, s := Bezout(b, a);
      } else {
        s, t := Bezout(a, b);
      }
      MultipleOfLcm(a, b, g, u, v, s, t, x);
    }
  }

  /** x g = x a s + x b t = (a b)(...) = m g (...), and g cancels. */
  lemma MultipleOfLcm(a: nat, b: nat, g: nat, u: int, v: int, s: int, t: int, x: nat)
    requires g > 0 && a == g * u && b == g * v && g == a * s + b * t
    requires Divides(a, x) && Divides(b, x)
    ensures Divides(a * v, x)
  {
    var p :| x == a * p;
    var q :| x == b * q;
    var k := q * s + p * t;
    assert x * g == (b * q) * (a * s) + (a * p) * (b * t) by {
      Split(x, g, a * s, b * t);
    }
    Regroup(a, b, p, q, s, t);
    assert x * g == (a * b) * k;
    assert (a * b) * k == (a * v * k) * g by {
      Move(a, g, v, k);
    }
    CancelRight(x, a * v * k, g);
    assert x == (a * v) * k;
  }

  lemma Split(x: int, g: int, y: int, z: int)
    requires g == y + z
    ensures x * g == x * y + x * z
  {
  }

  lemma Regroup(a: int, b: int, p: int, q: int, s: int, t: int)
    ensures (b * q) * (a * s) + (a * p) * (b * t) == (a * b) * (q * s + p * t)
  {
  }

  lemma Move(a: int, g: int, v: int, k: int)
    ensures (a * (g * v)) * k == (a * v * k) * g
  {
  }

  lemma CancelRight(x: int, y: int, g: nat)
    requires g > 0 && x * g == y * g
    ensures x == y
  {
    assert (x - y) * g == 0;
    if x > y {
      MultipleAtLeast(g, x - y);
    } else if y > x {
      MultipleAtLeast(g, y - x);
    }
  }

  /** The product is taken in `long long` and cannot overflow there. */
  lemma LcmFits(a: Int32, b: Int32)
    ensures Abs(CLcm(a, b)) <= 0x4000_0000_0000_0000
  {
    GcdMeaning(a, b);
    TruncDivMod(b, CGcd(a, b));
    ProductBound(a, TruncDiv(b, CGcd(a, b)), 0x8000_0000);
  }

  lemma ProductBound(x: int, y: int, m: nat)
    requires Abs(x) <= m && Abs(y) <= m
    ensures Abs(x * y) <= m * m
  {
    SignRule(x, y);
    MulMonotone(Abs(x), Abs(y), m);
  }

  lemma MulMonotone(x: nat, y: nat, m: nat)
    requires x <= m && y <= m
    ensures 0 <= x * y <= m * m
  {
  }

  method Lcm(a: Int32, b: Int32) returns (r: Int64)
    ensures r == CLcm(a, b)
  {
    var g := Gcd(a, b);
    GcdMeaning(a, b);
    LcmFits(a, b);
    r := (a as int) * TruncDiv(b, g);
  }

  // ---- iter ----

  /** What `iter` computes, narrowing included. */
  function Fold(s: seq<Int32>): int {
    if s == [] then -1
    else if |s| == 1 then s[0]
    else CLcm(Wrap32(Fold(s[..|s| - 1])), s[|s| - 1])
  }

  method Iter(arr: array<Int32>, n: nat) returns (r: Int64)
    requires n <= arr.Length
    ensures r == Fold(arr[..n])
  {
    if n == 0 {
      return -1;
    }
    var curr: Int64 := arr[0];
    for i := 1 to n
      invariant curr == Fold(arr[..i])
    {
      assert arr[..i + 1][..i] == arr[..i];
      curr := Lcm(Wrap32(curr), arr[i]);
    }
    return curr;
  }

  /** The exact LCM of the entries, by the same fold without narrowing. */
  function ExactLcm(s: seq<int>): int
  {
    if s == [] then 1
    else if |s| == 1 then s[0]
    else CLcm(ExactLcm(s[..|s| - 1]), s[|s| - 1])
  }

  ghost predicate AllPositive(s: seq<int>) {
    forall i :: 0 <= i < |s| ==> s[i] > 0
  }

  lemma {:induction false} ExactLcmIsLcm(s: seq<int>)
    requires s != [] && AllPositive(s)
    ensures ExactLcm(s) > 0 && IsLcm(ExactLcm(s), s)
    decreases |s|
  {
    if |s| == 1 {
      DividesSelf(s[0]);
    } else {
      var front, last := s[..|s| - 1], s[|s| - 1];
      ExactLcmIsLcm(front);
      LcmOfTwo(ExactLcm(front), last);
      LcmExtends(front, last, ExactLcm(front), ExactLcm(s));
      assert front + [last] == s;
    }
  }

  lemma LcmExtends(front: seq<int>, last: int, l: int, m: int)
    requires IsLcm(l, front) && m > 0 && Divides(l, m) && Divides(last, m)
    requires forall x: nat :: Divides(l, x) && Divides(last, x) ==> Divides(m, x)
    ensures IsLcm(m, front + [last])
  {
    var s := front + [last];
    forall i | 0 <= i < |s|
      ensures Divides(s[i], m)
    {
      if i < |front| {
        DividesTrans(front[i], l, m);
      }
    }
    forall x: int | CommonMultiple(x, s)
      ensures Divides(m, x)
    {
      assert forall i :: 0 <= i < |front| ==> front[i] == s[i];
      assert s[|front|] == last;
      assert CommonMultiple(x, front);
    }
  }

  /** No proper prefix has an LCM beyond a 32-bit int. */
  ghost predicate PrefixesFit(s: seq<int>) {
    forall i :: 0 < i < |s| ==> ExactLcm(s[..i]) < 0x8000_0000
  }

  /** `iter` returns the least common multiple of positive entries if every proper prefix LCM fits an int. */
  lemma {:induction false} FoldIsLcm(s: seq<Int32>)
    requires s != [] && AllPositive(s) && PrefixesFit(s)
    ensures Fold(s) == ExactLcm(s) && IsLcm(Fold(s), s)
    decreases |s|
  {
    ExactLcmIsLcm(s);
    if |s| > 1 {
      var front := s[..|s| - 1];
      assert forall i :: 0 < i < |front| ==> front[..i] == s[..i];
      FoldIsLcm(front);
      ExactLcmIsLcm(front);
      WrapSmall(ExactLcm(front));
      assert Fold(s) == CLcm(Wrap32(Fold(front)), s[|s| - 1]);
    }
  }

  /** Narrowing changes none of the running values. */
  predicate NothingLost(s: seq<Int32>) { forall i :: 0 < i < |s| ==> FitsInt(Fold(s[..i])) }

  /** No running value is ever lost in the narrowing exactly if every proper prefix LCM fits an int. */
  lemma {:induction false} NothingLostExactly(s: seq<Int32>)
    requires s != [] && AllPositive(s)
    ensures NothingLost(s) <==> PrefixesFit(s)
    decreases |s|
  {
    if |s| > 1 {
      var front := s[..|s| - 1];
      NothingLostExactly(front);
      PrefixesOfFront(s, front);
      LossesOfFront(s, front);
      ExactLcmIsLcm(front);
      if PrefixesFit(front) {
        FoldIsLcm(front);
      }
    }
  }

  /** What holds of every proper prefix holds of those of the front, and of the front. */
  lemma PrefixesOfFront(s: seq<int>, front: seq<int>)
    requires |s| > 1 && front == s[..|s| - 1]
    ensures PrefixesFit(s) <==> PrefixesFit(front) && ExactLcm(front) < 0x8000_0000
  {
    assert forall i :: 0 < i < |front| ==> front[..i] == s[..i];
    if PrefixesFit(front) && ExactLcm(front) < 0x8000_0000 {
      forall i | 0 < i < |s|
        ensures ExactLcm(s[..i]) < 0x8000_0000
      {
        if i < |front| { assert ExactLcm(front[..i]) < 0x8000_0000; }
      }
    }
  }

  lemma LossesOfFront(s: seq<Int32>, front: seq<Int32>)
    requires |s| > 1 && front == s[..|s| - 1]
    ensures NothingLost(s) <==> NothingLost(front) && FitsInt(Fold(front))
  {
    assert forall i :: 0 < i < |front| ==> front[..i] == s[..i];
    if NothingLost(front) && FitsInt(Fold(front)) {
      forall i | 0 < i < |s|
        ensures FitsInt(Fold(s[..i]))
      {
        if i < |front| { assert FitsInt(Fold(front[..i])); }
      }
    }
  }

  /** Beyond an int the narrowed prefix is lost: here `iter` returns 65536 instead of 4295032832. */
  lemma PrefixOverflow()
    ensures var s: seq<Int32> := [65536, 65537, 1];
            && AllPositive(s) && !PrefixesFit(s)
            && Fold(s) == 65536 && ExactLcm(s) == 4295032832
  {
    var s: seq<Int32> := [65536, 65537, 1];
    assert s[..2] == [65536, 65537] && s[..2][..1] == [65536];
    assert TruncMod(65537, 65536) == 1 && TruncMod(65536, 1) == 0;
    assert Euclid(65536, 1) == Euclid(1, 0) == 1;
    assert Euclid(65537, 65536) == Euclid(65536, 1);
    assert CLcm(65536, 65537) == 4295032832;
    assert TruncMod(4295032832, 1) == 0;
    assert Euclid(4295032832, 1) == Euclid(1, 0);
    assert ExactLcm(s[..2]) == 4295032832;
  }

  /** The condition is not necessary: a lost prefix can still lead to the right answer. */
  lemma LuckyOverflow()
    ensures var s: seq<Int32> := [4, 1073741825, 1073741825];
            && AllPositive(s) && !PrefixesFit(s) && Fold(s) == ExactLcm(s)
  {
    var n: int := 1073741825;
    var s: seq<Int32> := [4, 1073741825, 1073741825];
    assert s[..2] == [4, n] && s[..2][..1] == [4];
    assert TruncMod(n, 4) == 1 && TruncMod(4, 1) == 0;
    assert Euclid(4, 1) == Euclid(1, 0) == 1;
    assert Euclid(n, 4) == Euclid(4, 1);
    assert CLcm(4, n) == 4 * n;
    assert Wrap32(4 * n) == 4;
    assert ExactLcm(s[..2]) == 4 * n;
    assert TruncMod(4 * n, n) == 0;
    assert Euclid(4 * n, n) == Euclid(n, 0) == n;
    assert CLcm(4 * n, n) == 4 * n;
  }
}

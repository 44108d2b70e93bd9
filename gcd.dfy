/** The binary (Stein) greatest common divisor of app/src/main/rust/src/util.rs,
    used to reduce a video resolution to its aspect ratio. Inputs are the
    non-negative `i32` values the callers pass (frame dimensions). */
module BinaryGcd {

  const I32_MAX: int := 0x7fff_ffff

  /** `d` is a positive divisor of `n`. */
  predicate Divides(d: int, n: int) {
    d > 0 && n % d == 0
  }

  /** `g` is the greatest common divisor of `a` and `b`: a common divisor that
      every common divisor divides. */
  ghost predicate IsGcd(g: int, a: int, b: int) {
    Divides(g, a) && Divides(g, b) &&
    forall d :: Divides(d, a) && Divides(d, b) ==> Divides(d, g)
  }

  function Pow2(n: nat): (p: int)
    ensures p >= 1
  {
    if n == 0 then 1 else 2 * Pow2(n - 1)
  }

  /** `i32::trailing_zeros` of a positive value. */
  function TrailingZeros(x: int): nat
    requires x > 0
    decreases x
  {
    if x % 2 == 1 then 0 else 1 + TrailingZeros(x / 2)
  }

  /** `x >> n` on a non-negative value: `n` halvings. */
  function ShiftRight(x: nat, n: nat): nat {
    if n == 0 then x else ShiftRight(x / 2, n - 1)
  }

  /** `x << n` on a value whose result fits in an `i32`. */
  function ShiftLeft(x: int, n: nat): int {
    x * Pow2(n)
  }

  /** `gcd`. The zero cases return the other argument; otherwise both values are
      stripped of their trailing zero bits, the common power of two is kept in
      `k`, and the odd parts are reduced by subtraction. */
  method Gcd(u0: int, v0: int) returns (g: int)
    requires 0 <= u0 <= I32_MAX && 0 <= v0 <= I32_MAX
    ensures u0 == 0 ==> g == v0
    ensures u0 != 0 && v0 == 0 ==> g == u0
    ensures u0 != 0 || v0 != 0 ==> IsGcd(g, u0, v0)
    ensures 0 <= g <= I32_MAX
  {
    if u0 == 0 {
      if v0 > 0 {
        ZeroGcd(v0);
      }
      return v0;
    } else if v0 == 0 {
      ZeroGcd(u0);
      GcdSymmetric(u0, 0, u0);
      return u0;
    }
    var u, v := u0, v0;
    var i := TrailingZeros(u);
    StripTrailingZeros(u);
    u := ShiftRight(u, i);
    var j := TrailingZeros(v);
    StripTrailingZeros(v);
    v := ShiftRight(v, j);
    var k := if i < j then i else j;
    ghost var u1, v1 := u, v;
    SameCommonDivisorsRefl(u, v);
    while true
      invariant u > 0 && v > 0 && u % 2 == 1 && v % 2 == 1
      invariant SameCommonDivisors(u, v, u1, v1)
      decreases u + v
    {
      if u > v {
        SameCommonDivisorsSwap(u, v, u1, v1);
        u, v := v, u;
      }
      SubStep(u, v, u1, v1);
      v := v - u;
      if v == 0 {
        FinishStep(u, u1, v1, u0, v0, i, j);
        return ShiftLeft(u, k);
      }
      StripStep(u, v, u1, v1);
      v := ShiftRight(v, TrailingZeros(v));
    }
  }

  /** `gcd(0, n) == n` is the greatest common divisor of 0 and a positive `n`. */
  lemma ZeroGcd(n: int)
    requires n > 0
    ensures IsGcd(n, 0, n)
  {
    SelfDivides(n);
  }

  /** The greatest common divisor is unique. */
  lemma GcdUnique(g: int, h: int, a: int, b: int)
    requires IsGcd(g, a, b) && IsGcd(h, a, b)
    ensures g == h
  {
    assert Divides(g, h) && Divides(h, g);
    DividesLe(g, h);
    DividesLe(h, g);
  }

  /** The greatest common divisor does not depend on the argument order. */
  lemma GcdSymmetric(g: int, a: int, b: int)
    requires IsGcd(g, a, b)
    ensures IsGcd(g, b, a)
  {
  }

  /** Swapping the arguments gives the same greatest common divisor, so
      `gcd(u, v) == gcd(v, u)` whenever one of them is non-zero. */
  lemma GcdArgumentOrder(g: int, h: int, a: int, b: int)
    requires IsGcd(g, a, b) && IsGcd(h, b, a)
    ensures g == h
  {
    GcdSymmetric(h, b, a);
    GcdUnique(g, h, a, b);
  }

  /** The greatest common divisor of two positive values is at most either. */
  lemma GcdBounded(g: int, a: int, b: int)
    requires IsGcd(g, a, b) && a > 0 && b > 0
    ensures 0 < g <= a && g <= b
  {
    DividesLe(g, a);
    DividesLe(g, b);
  }

  // ---- divisibility ----

  lemma MulRange(d: int, c: int, m: int)
    requires d > 0 && m >= 1 && 0 <= d * c < m * d
    ensures 0 <= c < m
  {
  }

  lemma DividesProduct(d: int, q: int)
    requires d > 0
    ensures Divides(d, d * q)
  {
    var n := d * q;
    assert n == d * (n / d) + n % d;
    assert d * (q - n / d) == n % d;
    MulRange(d, q - n / d, 1);
  }

  lemma SelfDivides(n: int)
    requires n > 0
    ensures Divides(n, n)
  {
    DividesProduct(n, 1);
  }

  lemma DividesWitness(d: int, n: int)
    requires Divides(d, n)
    ensures n == d * (n / d)
  {
  }

  lemma DividesSum(d: int, a: int, b: int)
    requires Divides(d, a) && Divides(d, b)
    ensures Divides(d, a + b) && Divides(d, b - a)
  {
    var x, y := a / d, b / d;
    DividesWitness(d, a);
    DividesWitness(d, b);
    assert a + b == d * (x + y);
    assert b - a == d * (y - x);
    DividesProduct(d, x + y);
    DividesProduct(d, y - x);
  }

  lemma DividesMultiple(d: int, n: int, m: int)
    requires Divides(d, n)
    ensures Divides(d, n * m)
  {
    var x := n / d;
    DividesWitness(d, n);
    assert n * m == d * (x * m);
    DividesProduct(d, x * m);
  }

  lemma DividesTrans(a: int, b: int, c: int)
    requires Divides(a, b) && Divides(b, c)
    ensures Divides(a, c)
  {
    DividesWitness(b, c);
    DividesMultiple(a, b, c / b);
  }

  lemma DividesLe(d: int, n: int)
    requires Divides(d, n) && n > 0
    ensures d <= n
  {
    var q := n / d;
    DividesWitness(d, n);
  }

  lemma DividesMulBoth(a: int, b: int, c: int, e: int)
    requires Divides(a, b) && Divides(c, e)
    ensures Divides(a * c, b * e)
  {
    var x, y := b / a, e / c;
    DividesWitness(a, b);
    DividesWitness(c, e);
    assert b * e == (a * c) * (x * y);
    DividesProduct(a * c, x * y);
  }

  // ---- odd divisors and powers of two ----

  lemma OddDivisor(d: int, u: int)
    requires Divides(d, u) && u % 2 == 1
    ensures d % 2 == 1
  {
    DividesWitness(d, u);
    EvenTimes(d, u / d);
  }

  lemma EvenTimes(d: int, x: int)
    ensures d % 2 == 0 ==> (d * x) % 2 == 0
  {
    var h := d / 2;
    assert d % 2 == 0 ==> d * x == 2 * (h * x);
  }

  lemma {:induction false} OddDividesDouble(d: int, y: int)
    requires d % 2 == 1 && Divides(d, 2 * y)
    ensures Divides(d, y)
  {
    var a, r := y / d, y % d;
    var b := 2 * y / d;
    assert y == d * a + r;
    DividesWitness(d, 2 * y);
    assert d * (b - 2 * a) == 2 * r;
    MulRange(d, b - 2 * a, 2);
  }

  lemma {:induction false} OddDividesPow2Multiple(d: int, n: nat, y: int)
    requires d % 2 == 1 && Divides(d, Pow2(n) * y)
    ensures Divides(d, y)
    decreases n
  {
    if n > 0 {
      assert Pow2(n) * y == 2 * (Pow2(n - 1) * y);
      OddDividesDouble(d, Pow2(n - 1) * y);
      OddDividesPow2Multiple(d, n - 1, y);
    }
  }

  lemma {:induction false} Pow2Split(k: nat, i: nat)
    requires k <= i
    ensures Pow2(i) == Pow2(k) * Pow2(i - k)
    decreases i
  {
    if k < i {
      Pow2Split(k, i - 1);
      assert Pow2(i) == 2 * (Pow2(k) * Pow2(i - 1 - k));
    }
  }

  /** A power of two that divides `2^i * a`, `a` odd, is at most `2^i`. */
  lemma {:induction false} Pow2DividesOddMultiple(s: nat, i: nat, a: int)
    requires a % 2 == 1 && Divides(Pow2(s), Pow2(i) * a)
    ensures s <= i
    decreases i
  {
    if s > 0 {
      var p := Pow2(s - 1);
      var y := Pow2(i) * a;
      DividesWitness(Pow2(s), y);
      var q := y / Pow2(s);
      if i == 0 {
        DividesProduct(2, p);
        DividesTrans(2, Pow2(s), a);
        assert false;
      } else {
        assert 2 * (Pow2(i - 1) * a) == 2 * (p * q);
        DividesProduct(p, q);
        Pow2DividesOddMultiple(s - 1, i - 1, a);
      }
    }
  }

  /** Trailing zero bits: `x == 2^tz * (x >> tz)` with an odd `x >> tz`. */
  lemma {:induction false} StripTrailingZeros(x: int)
    requires x > 0
    ensures var o := ShiftRight(x, TrailingZeros(x));
      0 < o <= x && o % 2 == 1 && x == Pow2(TrailingZeros(x)) * o
    decreases x
  {
    if x % 2 == 0 {
      StripTrailingZeros(x / 2);
      var t := TrailingZeros(x / 2);
      var o := ShiftRight(x / 2, t);
      assert ShiftRight(x, t + 1) == o;
      assert Pow2(t + 1) * o == 2 * (Pow2(t) * o);
    }
  }

  // ---- the loop steps and the final scaling ----

  /** The pairs `(a, b)` and `(c, e)` have the same common divisors. */
  ghost predicate SameCommonDivisors(a: int, b: int, c: int, e: int) {
    forall d :: Divides(d, a) && Divides(d, b) <==> Divides(d, c) && Divides(d, e)
  }

  lemma SameCommonDivisorsRefl(a: int, b: int)
    ensures SameCommonDivisors(a, b, a, b)
  {
  }

  lemma SameCommonDivisorsSwap(a: int, b: int, c: int, e: int)
    requires SameCommonDivisors(a, b, c, e)
    ensures SameCommonDivisors(b, a, c, e)
  {
  }

  /** `v -= u` keeps the common divisors. */
  lemma SubStep(u: int, v: int, u1: int, v1: int)
    requires SameCommonDivisors(u, v, u1, v1)
    ensures SameCommonDivisors(u, v - u, u1, v1)
  {
    forall d | Divides(d, u) ensures Divides(d, v) <==> Divides(d, v - u) {
      if Divides(d, v) {
        DividesSum(d, u, v);
      }
      if Divides(d, v - u) {
        DividesSum(d, u, v - u);
      }
    }
  }

  /** An odd divisor divides a value exactly when it divides its odd part. */
  lemma StripKeepsOddDivisor(d: int, w: int)
    requires d % 2 == 1 && w > 0
    ensures Divides(d, w) <==> Divides(d, ShiftRight(w, TrailingZeros(w)))
  {
    StripTrailingZeros(w);
    var t := TrailingZeros(w);
    var o := ShiftRight(w, t);
    if Divides(d, w) {
      OddDividesPow2Multiple(d, t, o);
    }
    if Divides(d, o) {
      DividesMultiple(d, o, Pow2(t));
      assert o * Pow2(t) == w;
    }
  }

  /** `v >>= v.trailing_zeros()` keeps the common divisors with an odd `u`, and
      leaves an odd value no larger than before. */
  lemma StripStep(u: int, w: int, u1: int, v1: int)
    requires u % 2 == 1 && w > 0
    requires SameCommonDivisors(u, w, u1, v1)
    ensures SameCommonDivisors(u, ShiftRight(w, TrailingZeros(w)), u1, v1)
    ensures var o := ShiftRight(w, TrailingZeros(w)); 0 < o <= w && o % 2 == 1
  {
    StripTrailingZeros(w);
    forall d | Divides(d, u)
      ensures Divides(d, w) <==> Divides(d, ShiftRight(w, TrailingZeros(w)))
    {
      OddDivisor(d, u);
      StripKeepsOddDivisor(d, w);
    }
  }

  /** When `v - u` reaches 0, `u << k` is the gcd of the original arguments. */
  lemma FinishStep(u: int, u1: int, v1: int, u0: int, v0: int, i: nat, j: nat)
    requires u > 0 && u1 % 2 == 1 && v1 % 2 == 1
    requires SameCommonDivisors(u, u, u1, v1)
    requires u0 == Pow2(i) * u1 && v0 == Pow2(j) * v1 && u0 > 0
    ensures IsGcd(ShiftLeft(u, if i < j then i else j), u0, v0)
    ensures ShiftLeft(u, if i < j then i else j) <= u0
  {
    SelfDivides(u);
    assert Divides(u, u1) && Divides(u, v1);
    GcdOfScaled(u, u1, v1, i, j);
    DividesLe(ShiftLeft(u, if i < j then i else j), u0);
  }

  /** Restoring the common power of two: if `g` is the gcd of the odd `a` and `b`,
      then `g << min(i, j)` is the gcd of `a << i` and `b << j`. */
  lemma GcdOfScaled(g: int, a: int, b: int, i: nat, j: nat)
    requires a % 2 == 1 && b % 2 == 1
    requires IsGcd(g, a, b)
    ensures IsGcd(g * Pow2(if i < j then i else j), Pow2(i) * a, Pow2(j) * b)
  {
    var k := if i < j then i else j;
    ScaledDivides(g, a, k, i);
    ScaledDivides(g, b, k, j);
    forall d | Divides(d, Pow2(i) * a) && Divides(d, Pow2(j) * b) ensures Divides(d, g * Pow2(k)) {
      ScaledCommonDivisor(g, a, b, i, j, d);
    }
  }

  /** A divisor of `a`, scaled by `2^k`, divides `a` scaled by `2^i` for `k <= i`. */
  lemma ScaledDivides(g: int, a: int, k: nat, i: nat)
    requires Divides(g, a) && k <= i
    ensures Divides(g * Pow2(k), Pow2(i) * a)
  {
    Pow2Split(k, i);
    DividesProduct(Pow2(k), Pow2(i - k));
    DividesMulBoth(g, a, Pow2(k), Pow2(i));
    assert a * Pow2(i) == Pow2(i) * a;
  }

  /** A common divisor of `2^i * a` and `2^j * b` (odd `a`, `b`) divides
      `gcd(a, b) * 2^min(i, j)`: its odd part divides the gcd and its power of
      two is at most `2^min(i, j)`. */
  lemma ScaledCommonDivisor(g: int, a: int, b: int, i: nat, j: nat, d: int)
    requires a % 2 == 1 && b % 2 == 1
    requires IsGcd(g, a, b)
    requires Divides(d, Pow2(i) * a) && Divides(d, Pow2(j) * b)
    ensures Divides(d, g * Pow2(if i < j then i else j))
  {
    var k := if i < j then i else j;
    StripTrailingZeros(d);
    var s := TrailingZeros(d);
    var e := ShiftRight(d, s);
    var p := Pow2(s);
    assert d == p * e;
    OddPartDividesGcd(g, a, b, i, j, e, p);
    Pow2PartBounded(a, i, e, s);
    Pow2PartBounded(b, j, e, s);
    Pow2Split(s, k);
    DividesProduct(p, Pow2(k - s));
    DividesMulBoth(p, Pow2(k), e, g);
    assert Pow2(k) * g == g * Pow2(k);
  }

  /** The odd part `e` of a common divisor `e * p` of `2^i * a` and `2^j * b`
      divides `gcd(a, b)`. */
  lemma OddPartDividesGcd(g: int, a: int, b: int, i: nat, j: nat, e: int, p: int)
    requires IsGcd(g, a, b) && e > 0 && e % 2 == 1 && p >= 1
    requires Divides(p * e, Pow2(i) * a) && Divides(p * e, Pow2(j) * b)
    ensures Divides(e, g)
  {
    DividesProduct(e, p);
    assert e * p == p * e;
    DividesTrans(e, p * e, Pow2(i) * a);
    DividesTrans(e, p * e, Pow2(j) * b);
    OddDividesPow2Multiple(e, i, a);
    OddDividesPow2Multiple(e, j, b);
  }

  /** The power of two `2^s` of a divisor `2^s * e` of `2^i * a`, `a` odd, is
      at most `2^i`. */
  lemma Pow2PartBounded(a: int, i: nat, e: int, s: nat)
    requires a % 2 == 1 && e > 0
    requires Divides(Pow2(s) * e, Pow2(i) * a)
    ensures s <= i
  {
    DividesProduct(Pow2(s), e);
    DividesTrans(Pow2(s), Pow2(s) * e, Pow2(i) * a);
    Pow2DividesOddMultiple(s, i, a);
  }
}

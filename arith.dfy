/** Mathematical integer facts shared by the Euclid, Rand and Prime modules.
    Dafny's `/` and `%` on `int` are Euclidean: `0 <= n % d < |d|` and
    `n == d * (n / d) + n % d` for every `d != 0`. */
module Arith {

  function Abs(n: int): nat {
    if n < 0 then -n else n
  }

  /** Dividing a non-negative number by a positive one gives a non-negative
      quotient. */
  lemma DivNonNegative(v: int, p: int)
    requires v >= 0 && p > 0
    ensures v / p >= 0
  {
  }

  /** `d` divides `n`; zero divides only zero. */
  predicate Divides(d: int, n: int) {
    if d == 0 then n == 0 else n % d == 0
  }

  /** The mathematical notion of a prime number. */
  ghost predicate Prime(n: int) {
    n >= 2 && forall k :: 1 < k < n ==> !Divides(k, n)
  }

  /** `u` and `v` have no common divisor other than 1 and -1. */
  ghost predicate Coprime(u: int, v: int) {
    forall k :: Divides(k, u) && Divides(k, v) ==> k == 1 || k == -1
  }

  function Pow(b: int, e: nat): int {
    if e == 0 then 1 else b * Pow(b, e - 1)
  }

  function Pow2(k: nat): (r: nat)
    ensures r >= 1
  {
    if k == 0 then 1 else 2 * Pow2(k - 1)
  }

  /** Division with remainder is unique: any `q, r` with `n == d*q + r` and
      `0 <= r < |d|` are Dafny's quotient and remainder. */
  lemma DivModUnique(n: int, d: int, q: int, r: int)
    requires d != 0 && n == d * q + r && 0 <= r < Abs(d)
    ensures n / d == q && n % d == r
  {
    var q0, r0 := n / d, n % d;
    assert d * (q - q0) == r0 - r;
    if q != q0 {
      MulAwayFromZero(d, q - q0);
    }
  }

  /** A non-zero multiple of `d` is at least `|d|` away from zero. */
  lemma MulAwayFromZero(d: int, k: int)
    requires k != 0
    ensures Abs(d * k) >= Abs(d)
  {
    var m := Abs(k) - 1;
    assert Abs(d * k) == Abs(d) * Abs(k);
    assert Abs(d) * Abs(k) == Abs(d) + Abs(d) * m;
  }

  lemma DividesMul(d: int, m: int)
    ensures Divides(d, d * m)
  {
    if d != 0 { DivModUnique(d * m, d, m, 0); }
  }

  /** A divisor `d` of `n` gives the cofactor `n / d`. */
  lemma DividesCofactor(d: int, n: int)
    requires d != 0 && Divides(d, n)
    ensures n == d * (n / d)
  {
  }

  lemma DividesLinear(d: int, a: int, b: int, x: int, y: int)
    requires Divides(d, a) && Divides(d, b)
    ensures Divides(d, a * x + b * y)
  {
    if d != 0 {
      var ka, kb := a / d, b / d;
      assert a * x + b * y == d * (ka * x + kb * y) by {
        assert a == d * ka && b == d * kb;
      }
      DividesMul(d, ka * x + kb * y);
    }
  }

  /** Adding a multiple of the modulus does not change the remainder. */
  lemma ModAddMultiple(k: int, n: int, y: int)
    requires n > 0
    ensures (k * n + y) % n == y % n
  {
    var q, r := y / n, y % n;
    assert k * n + y == n * (k + q) + r;
    DivModUnique(k * n + y, n, k + q, r);
  }

  /** Reducing the right factor first does not change the remainder of a product. */
  lemma MulModRight(a: int, x: int, n: int)
    requires n > 0
    ensures (a * (x % n)) % n == (a * x) % n
  {
    var q, r := x / n, x % n;
    assert a * x == (a * q) * n + a * r by {
      assert x == q * n + r;
    }
    ModAddMultiple(a * q, n, a * r);
  }

  /** Reducing the factors first does not change the remainder of a product. */
  lemma MulMod(x: int, y: int, n: int)
    requires n > 0
    ensures ((x % n) * (y % n)) % n == (x * y) % n
  {
    MulModRight(x % n, y, n);
    assert (x % n) * y == y * (x % n);
    MulModRight(y, x, n);
    assert y * x == x * y;
  }

  lemma OneMod(n: int)
    requires n >= 2
    ensures 1 % n == 1
  {
    DivModUnique(1, n, 0, 1);
  }

  lemma {:induction false} PowAdd(b: int, m: nat, n: nat)
    ensures Pow(b, m + n) == Pow(b, m) * Pow(b, n)
  {
    if m > 0 {
      PowAdd(b, m - 1, n);
      assert Pow(b, m + n) == b * Pow(b, m - 1 + n);
    }
  }

  lemma {:induction false} Pow2Add(m: nat, n: nat)
    ensures Pow2(m + n) == Pow2(m) * Pow2(n)
  {
    if m > 0 {
      Pow2Add(m - 1, n);
      assert Pow2(m + n) == 2 * Pow2(m - 1 + n);
    }
  }

  lemma {:induction false} Pow2Monotone(m: nat, n: nat)
    requires m <= n
    ensures Pow2(m) <= Pow2(n)
  {
    if m < n { Pow2Monotone(m, n - 1); }
  }

  /** A positive divisor of a positive number is at most that number. */
  lemma DivisorBound(k: int, m: int)
    requires k > 0 && m > 0 && Divides(k, m)
    ensures k <= m
  {
    DividesCofactor(k, m);
    assert k * (m / k) >= k * 1;
  }

  /** A product of two integers is 1 or -1 only when both factors are. */
  lemma UnitFactor(k: int, m: int)
    requires k * m == 1 || k * m == -1
    ensures k == 1 || k == -1
  {
  }

  /** Euclid's lemma, from a Bezout identity: if `p` divides `a*b` and some
      combination of `a` and `p` equals 1, then `p` divides `b`. */
  lemma DividesByBezout(p: int, a: int, b: int, x: int, y: int)
    requires a * x + p * y == 1
    requires Divides(p, a * b)
    ensures Divides(p, b)
  {
    assert b == (a * b) * x + p * (b * y) by {
      assert b == b * (a * x + p * y);
    }
    DividesMul(p, 1);
    DividesLinear(p, a * b, p, x, b * y);
  }
}

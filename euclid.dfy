/** The extended Euclidean algorithm (`ext_euclid`) and the modular inverse
    and modular division built on it (`modinv`, `moddiv`). */
module Euclid {
  import opened Arith

  /** One entry of the remainder sequence together with its Bezout
      coefficients (`ExtendedEuclideanObject`). */
  datatype EuclidState = EuclidState(r: int, x: int, y: int)

  /** What `ext_euclid` returns (`ExtendedEuclideanResult`); equality is
      field-wise, as for the derived `PartialEq`. */
  datatype ExtEuclidResult = ExtEuclidResult(
    gcd: int, bezoutX: int, bezoutY: int, reducedA: int, reducedB: int)

  /** The two failures `assert_throw!` raises in `modinv` and `moddiv`. */
  datatype Error = InvalidModulus | NoModularInverse

  datatype Result<T> = Ok(value: T) | Err(error: Error)

  /** Determinant of the coefficient matrix formed by two states. */
  function Det(prev: EuclidState, curr: EuclidState): int {
    prev.x * curr.y - prev.y * curr.x
  }

  /** The loop invariant: both remainders are the stated combinations of the
      inputs `a` and `b`, and the coefficient matrix is invertible over the
      integers (determinant 1 or -1). */
  predicate Tracks(a: int, b: int, prev: EuclidState, curr: EuclidState) {
    && prev.r == a * prev.x + b * prev.y
    && curr.r == a * curr.x + b * curr.y
    && (Det(prev, curr) == 1 || Det(prev, curr) == -1)
  }

  /** The state the loop body computes from `prev` and `curr`: Euclidean
      quotient and remainder, and the linear recurrence on the coefficients.
      The new remainder is smaller than `|curr.r|`, which is why the loop ends. */
  function Next(prev: EuclidState, curr: EuclidState): (next: EuclidState)
    requires curr.r != 0
    ensures 0 <= next.r < Abs(curr.r)
  {
    var q := prev.r / curr.r;
    EuclidState(prev.r % curr.r, prev.x - q * curr.x, prev.y - q * curr.y)
  }

  /** The pair `(prev, curr)` in which the loop ends, started from `prev, curr`. */
  function Run(prev: EuclidState, curr: EuclidState): (fin: (EuclidState, EuclidState))
    ensures fin.1.r == 0
    decreases Abs(curr.r)
  {
    if curr.r == 0 then (prev, curr) else Run(curr, Next(prev, curr))
  }

  /** `v`, negated when its sign differs from the sign of `target`
      (`is_negative` is false for zero). */
  function SignLike(target: int, v: int): int {
    if (target < 0) != (v < 0) then -v else v
  }

  /** The result record built from the final states (note the cross
      assignment of the cofactors). */
  function Finish(a: int, b: int, prev: EuclidState, curr: EuclidState): ExtEuclidResult {
    ExtEuclidResult(prev.r, prev.x, prev.y, SignLike(a, curr.y), SignLike(b, curr.x))
  }

  /** What `ext_euclid(a, b)` computes, as a function of the inputs. */
  function ExtEuclidOf(a: int, b: int): ExtEuclidResult {
    var fin := Run(EuclidState(a, 1, 0), EuclidState(b, 0, 1));
    Finish(a, b, fin.0, fin.1)
  }

  /** `ext_euclid`: the remainder loop over two mutable state records,
      then the sign normalisation of the cofactors. */
  method ExtEuclid(a: int, b: int) returns (res: ExtEuclidResult)
    ensures res == ExtEuclidOf(a, b)
    ensures res.gcd == a * res.bezoutX + b * res.bezoutY
    ensures a == Abs(res.gcd) * res.reducedA && b == Abs(res.gcd) * res.reducedB
    ensures res.gcd >= 0 ==> a == res.gcd * res.reducedA && b == res.gcd * res.reducedB
  {
    var prev := EuclidState(a, 1, 0);
    var curr := EuclidState(b, 0, 1);
    while curr.r != 0
      invariant Tracks(a, b, prev, curr)
      invariant Run(prev, curr) == Run(EuclidState(a, 1, 0), EuclidState(b, 0, 1))
      decreases Abs(curr.r)
    {
      var q, r := prev.r / curr.r, prev.r % curr.r;
      var x := prev.x - q * curr.x;
      var y := prev.y - q * curr.y;
      NextTracks(a, b, prev, curr);
      prev := curr;
      curr := EuclidState(r, x, y);
    }
    FinalFactors(a, b, prev, curr);
    if (a < 0) != (curr.y < 0) {
      curr := curr.(y := -curr.y);
    }
    if (b < 0) != (curr.x < 0) {
      curr := curr.(x := -curr.x);
    }
    res := ExtEuclidResult(prev.r, prev.x, prev.y, curr.y, curr.x);
  }

  /** One loop iteration keeps the invariant and flips the determinant. */
  lemma NextTracks(a: int, b: int, prev: EuclidState, curr: EuclidState)
    requires Tracks(a, b, prev, curr) && curr.r != 0
    ensures Tracks(a, b, curr, Next(prev, curr))
    ensures Det(curr, Next(prev, curr)) == -Det(prev, curr)
  {
    var q := prev.r / curr.r;
    assert prev.r % curr.r == prev.r - q * curr.r;
    LinearStep(a, b, prev.x, prev.y, prev.r, curr.x, curr.y, curr.r, q);
    DetStep(prev.x, prev.y, curr.x, curr.y, q);
  }

  /** Subtracting `q` times one combination of `a` and `b` from another
      gives the combination with the subtracted coefficients. */
  lemma LinearStep(a: int, b: int, px: int, py: int, pr: int,
                   cx: int, cy: int, cr: int, q: int)
    requires pr == a * px + b * py && cr == a * cx + b * cy
    ensures pr - q * cr == a * (px - q * cx) + b * (py - q * cy)
  {
    assert q * cr == a * (q * cx) + b * (q * cy);
  }

  /** The row operation of one step flips the sign of the determinant. */
  lemma DetStep(px: int, py: int, cx: int, cy: int, q: int)
    ensures cx * (py - q * cy) - cy * (px - q * cx) == -(px * cy - py * cx)
  {
    assert cx * (q * cy) == cy * (q * cx);
  }

  /** The whole remainder loop keeps the invariant. */
  lemma {:induction false} RunTracks(a: int, b: int, prev: EuclidState, curr: EuclidState)
    requires Tracks(a, b, prev, curr)
    ensures Tracks(a, b, Run(prev, curr).0, Run(prev, curr).1)
    decreases Abs(curr.r)
  {
    if curr.r != 0 {
      NextTracks(a, b, prev, curr);
      RunTracks(a, b, curr, Next(prev, curr));
    }
  }

  /** A cofactor `y` of the same magnitude as `c`, given the sign of `a`,
      factors `a == g * c` as `a == |g| * y'`. */
  lemma SignLikeFactor(a: int, g: int, c: int, y: int)
    requires a == g * c && Abs(c) == Abs(y)
    ensures a == Abs(g) * SignLike(a, y)
  {
    assert Abs(a) == Abs(g) * Abs(c) by {
      if g < 0 && c < 0 { assert a == (-g) * (-c); }
      else if g < 0 { assert -a == (-g) * c; }
      else if c < 0 { assert -a == g * (-c); }
    }
    if a > 0 {
      assert SignLike(a, y) == Abs(y);
    } else if a < 0 {
      var m: int := Abs(c);
      assert SignLike(a, y) == -m;
    } else if g != 0 {
      assert c == 0;
    }
  }

  /** At loop exit the invariant expresses both inputs through the gcd and the
      final cofactors (the inverse of the coefficient matrix). */
  lemma FinalRelations(a: int, b: int, prev: EuclidState, curr: EuclidState)
    requires Tracks(a, b, prev, curr) && curr.r == 0
    ensures Det(prev, curr) == 1 ==> a == prev.r * curr.y && b == prev.r * -curr.x
    ensures Det(prev, curr) == -1 ==> a == prev.r * -curr.y && b == prev.r * curr.x
  {
    var g, d := prev.r, Det(prev, curr);
    assert a * d == curr.y * g by {
      calc {
        curr.y * g;
        curr.y * (a * prev.x + b * prev.y) - prev.y * (a * curr.x + b * curr.y);
        a * (prev.x * curr.y - prev.y * curr.x);
      }
    }
    assert b * d == -curr.x * g by {
      calc {
        -curr.x * g;
        prev.x * (a * curr.x + b * curr.y) - curr.x * (a * prev.x + b * prev.y);
        b * (prev.x * curr.y - prev.y * curr.x);
      }
    }
  }

  lemma DividesNeg(k: int, v: int)
    requires Divides(k, v)
    ensures Divides(k, -v)
  {
    DividesLinear(k, v, v, -1, 0);
  }

  /** Numbers of the magnitudes of the two cofactors of a determinant 1 or -1
      have no common divisor but 1 and -1. */
  lemma CofactorsCoprime(u: int, v: int, prev: EuclidState, curr: EuclidState)
    requires Det(prev, curr) == 1 || Det(prev, curr) == -1
    requires Abs(u) == Abs(curr.y) && Abs(v) == Abs(curr.x)
    ensures Coprime(u, v)
  {
    forall k | Divides(k, u) && Divides(k, v)
      ensures k == 1 || k == -1
    {
      if k != 0 {
        if u != curr.y { DividesNeg(k, u); }
        if v != curr.x { DividesNeg(k, v); }
        UnitDivisor(k, prev, curr);
      }
    }
  }

  /** A common divisor of `curr.y` and `curr.x` divides the determinant, so
      it is 1 or -1. */
  lemma UnitDivisor(k: int, prev: EuclidState, curr: EuclidState)
    requires Det(prev, curr) == 1 || Det(prev, curr) == -1
    requires k != 0 && Divides(k, curr.y) && Divides(k, curr.x)
    ensures k == 1 || k == -1
  {
    DividesLinear(k, curr.y, curr.x, prev.x, -prev.y);
    var d := Det(prev, curr);
    assert curr.y * prev.x + curr.x * -prev.y == d;
    DividesCofactor(k, d);
    UnitFactor(k, d / k);
  }

  /** At loop exit the normalised cofactors factor the inputs by `|gcd|` and
      are coprime. */
  lemma FinalFactors(a: int, b: int, prev: EuclidState, curr: EuclidState)
    requires Tracks(a, b, prev, curr) && curr.r == 0
    ensures a == Abs(prev.r) * SignLike(a, curr.y)
    ensures b == Abs(prev.r) * SignLike(b, curr.x)
    ensures Coprime(SignLike(a, curr.y), SignLike(b, curr.x))
  {
    FinalRelations(a, b, prev, curr);
    if Det(prev, curr) == 1 {
      SignLikeFactor(a, prev.r, curr.y, curr.y);
      SignLikeFactor(b, prev.r, -curr.x, curr.x);
    } else {
      SignLikeFactor(a, prev.r, -curr.y, curr.y);
      SignLikeFactor(b, prev.r, curr.x, curr.x);
    }
    CofactorsCoprime(SignLike(a, curr.y), SignLike(b, curr.x), prev, curr);
  }

  /** The final states of the loop run from the initial states. */
  lemma ExtEuclidFinal(a: int, b: int)
    ensures var fin := Run(EuclidState(a, 1, 0), EuclidState(b, 0, 1));
      && Tracks(a, b, fin.0, fin.1)
      && ExtEuclidOf(a, b) == Finish(a, b, fin.0, fin.1)
  {
    var p0, c0 := EuclidState(a, 1, 0), EuclidState(b, 0, 1);
    assert Det(p0, c0) == 1;
    RunTracks(a, b, p0, c0);
  }

  /** The Bezout identity and the factorisation of both inputs by `|gcd|`
      (by `gcd` itself whenever it is not negative), with coprime cofactors. */
  lemma ExtEuclidFactors(a: int, b: int)
    ensures var e := ExtEuclidOf(a, b);
      && e.gcd == a * e.bezoutX + b * e.bezoutY
      && a == Abs(e.gcd) * e.reducedA && b == Abs(e.gcd) * e.reducedB
      && (e.gcd >= 0 ==> a == e.gcd * e.reducedA && b == e.gcd * e.reducedB)
      && Coprime(e.reducedA, e.reducedB)
  {
    ExtEuclidFinal(a, b);
    var fin := Run(EuclidState(a, 1, 0), EuclidState(b, 0, 1));
    FinalFactors(a, b, fin.0, fin.1);
  }

  /** The returned gcd divides both inputs. */
  lemma ExtEuclidGcdDivides(a: int, b: int)
    ensures Divides(ExtEuclidOf(a, b).gcd, a) && Divides(ExtEuclidOf(a, b).gcd, b)
  {
    ExtEuclidFactors(a, b);
    var e := ExtEuclidOf(a, b);
    var g := e.gcd;
    if g < 0 {
      assert a == g * -e.reducedA && b == g * -e.reducedB;
      DividesMul(g, -e.reducedA);
      DividesMul(g, -e.reducedB);
    } else {
      DividesMul(g, e.reducedA);
      DividesMul(g, e.reducedB);
    }
  }

  /** Every common divisor of the inputs divides the returned gcd, so `|gcd|`
      is their greatest common divisor. */
  lemma ExtEuclidGreatest(a: int, b: int, k: int)
    requires Divides(k, a) && Divides(k, b)
    ensures Divides(k, ExtEuclidOf(a, b).gcd)
  {
    ExtEuclidFactors(a, b);
    var e := ExtEuclidOf(a, b);
    DividesLinear(k, a, b, e.bezoutX, e.bezoutY);
  }

  /** When the gcd is 1, `a * bezout_x == 1 (mod b)` and
      `b * bezout_y == 1 (mod a)`. */
  lemma ExtEuclidUnitGcd(a: int, b: int)
    requires ExtEuclidOf(a, b).gcd == 1
    ensures Divides(b, a * ExtEuclidOf(a, b).bezoutX - 1)
    ensures Divides(a, b * ExtEuclidOf(a, b).bezoutY - 1)
  {
    ExtEuclidFactors(a, b);
    var e := ExtEuclidOf(a, b);
    assert a * e.bezoutX - 1 == b * -e.bezoutY;
    assert b * e.bezoutY - 1 == a * -e.bezoutX;
    DividesMul(b, -e.bezoutY);
    DividesMul(a, -e.bezoutX);
  }

  lemma {:induction false} RunPositive(prev: EuclidState, curr: EuclidState)
    requires prev.r > 0 && curr.r >= 0
    ensures Run(prev, curr).0.r > 0
    decreases Abs(curr.r)
  {
    if curr.r != 0 {
      RunPositive(curr, Next(prev, curr));
    }
  }

  /** The sign of the returned gcd. It is zero only for two zero inputs and
      positive exactly when `b > 0`, when `b == 0 < a`, or when `b < 0` does
      not divide `a`; in the remaining cases (`b < 0` dividing `a`, or
      `b == 0 > a`) it is negative, and then `a == gcd * reduced_a` fails
      unless `a == 0`. */
  lemma ExtEuclidGcdSign(a: int, b: int)
    ensures ExtEuclidOf(a, b).gcd == 0 <==> a == 0 && b == 0
    ensures ExtEuclidOf(a, b).gcd > 0 <==> b > 0 || (b == 0 && a > 0) || (b < 0 && !Divides(b, a))
  {
    var p0, c0 := EuclidState(a, 1, 0), EuclidState(b, 0, 1);
    if b != 0 {
      var n1 := Next(p0, c0);
      assert Run(p0, c0) == Run(c0, n1);
      if b > 0 {
        RunPositive(c0, n1);
      } else if n1.r == 0 {
        assert Run(c0, n1).0 == c0;
      } else {
        var n2 := Next(c0, n1);
        assert Run(c0, n1) == Run(n1, n2);
        RunPositive(n1, n2);
      }
    }
  }

  // The remainder sequences of the test vectors, at most two iterations
  // per lemma (Dafny evaluates a short run on literal states directly).

  lemma RunOf288And396Start()
    ensures Run(EuclidState(288, 1, 0), EuclidState(396, 0, 1))
         == Run(EuclidState(288, 1, 0), EuclidState(108, -1, 1))
  {
  }

  lemma RunOf288And396Middle()
    ensures Run(EuclidState(288, 1, 0), EuclidState(108, -1, 1))
         == Run(EuclidState(72, 3, -2), EuclidState(36, -4, 3))
  {
  }

  lemma RunOf288And396End()
    ensures Run(EuclidState(72, 3, -2), EuclidState(36, -4, 3))
         == (EuclidState(36, -4, 3), EuclidState(0, 11, -8))
  {
  }

  /** The test vector of `test_extended_euclidean`. */
  lemma ExtEuclidExample()
    ensures ExtEuclidOf(288, 396) == ExtEuclidResult(36, -4, 3, 8, 11)
  {
    RunOf288And396Start();
    RunOf288And396Middle();
    RunOf288And396End();
  }

  /** With a negative divisor of `a` as `b` the gcd comes out negative, so
      `b == gcd * reduced_b` does not hold (here `-2 != -2 * -1`). */
  lemma ExtEuclidNegativeGcd()
    ensures ExtEuclidOf(4, -2) == ExtEuclidResult(-2, 0, 1, 2, -1)
  {
  }

  /** `a * x == 1 (mod p)`, for a modulus `p > 0`. */
  predicate IsInverse(a: int, x: int, p: int) {
    p > 0 && (a * x) % p == 1
  }

  /** `modinv`: fails for a modulus below 2 and when the gcd is not 1;
      otherwise the Bezout coefficient of `a`, reduced into `[0, p)`, is an
      inverse of `a`. */
  function ModInv(a: int, p: int): (res: Result<int>)
    ensures p <= 1 ==> res == Err(InvalidModulus)
    ensures p > 1 && res.Err? ==> res.error == NoModularInverse
    ensures res.Ok? ==> 0 <= res.value < p && IsInverse(a, res.value, p)
  {
    if p <= 1 then Err(InvalidModulus)
    else
      var e := ExtEuclidOf(a, p);
      if e.gcd != 1 then Err(NoModularInverse)
      else
        ExtEuclidFactors(a, p);
        BezoutInverse(a, p, e.bezoutX, e.bezoutY);
        Ok(e.bezoutX % p)
  }

  /** A Bezout identity `a*x + p*y == 1` makes `x mod p` an inverse of `a`. */
  lemma BezoutInverse(a: int, p: int, x: int, y: int)
    requires p > 1 && a * x + p * y == 1
    ensures IsInverse(a, x % p, p)
  {
    assert y * p + a * x == 1;
    ModAddMultiple(y, p, a * x);
    assert (a * x) % p == 1;
    MulModRight(a, x, p);
  }

  /** `modinv` fails with a valid modulus only when no inverse exists: a
      common factor `gcd > 1` of `a` and `p` would divide `a*x - p*k == 1`. */
  lemma ModInvExactness(a: int, p: int)
    requires p > 1
    ensures ModInv(a, p).Ok? <==> exists x :: IsInverse(a, x, p)
  {
    if ModInv(a, p).Ok? {
      assert IsInverse(a, ModInv(a, p).value, p);
    } else {
      var e := ExtEuclidOf(a, p);
      ExtEuclidGcdDivides(a, p);
      ExtEuclidGcdSign(a, p);
      var g := e.gcd;
      assert g > 1;
      if x :| IsInverse(a, x, p) {
        var k := (a * x) / p;
        assert a * x - p * k == 1;
        DividesLinear(g, a, p, x, -k);
      }
    }
  }

  lemma RunOfMinus2And17Start()
    ensures Run(EuclidState(-2, 1, 0), EuclidState(17, 0, 1))
         == Run(EuclidState(17, 0, 1), EuclidState(15, 1, 1))
  {
  }

  lemma RunOfMinus2And17Second()
    ensures Run(EuclidState(17, 0, 1), EuclidState(15, 1, 1))
         == Run(EuclidState(15, 1, 1), EuclidState(2, -1, 0))
  {
  }

  lemma RunOfMinus2And17End()
    ensures Run(EuclidState(15, 1, 1), EuclidState(2, -1, 0))
         == (EuclidState(1, 8, 1), EuclidState(0, -17, -2))
  {
  }

  /** The test vector of `test_modinv`. */
  lemma ModInvExample()
    ensures ModInv(-2, 17) == Ok(8)
  {
    RunOfMinus2And17Start();
    RunOfMinus2And17Second();
    RunOfMinus2And17End();
  }

  /** `moddiv`: fails only for a modulus below 2. After dividing `a` and `b`
      by their gcd it returns the reduced `a` unchanged when the reduced `b`
      is 1; otherwise it multiplies by the Bezout coefficient of the reduced
      `b` modulo `p` without checking that an inverse exists. The result is a
      quotient modulo `p` whenever the reduced `b` has an inverse. */
  function ModDiv(a: int, b: int, p: int): (res: Result<int>)
    ensures p <= 1 ==> res == Err(InvalidModulus)
    ensures p > 1 ==> res.Ok?
    ensures p > 1 && ExtEuclidOf(a, b).reducedB == 1 ==> res.value == ExtEuclidOf(a, b).reducedA
    ensures p > 1 && ExtEuclidOf(a, b).reducedB != 1 ==> 0 <= res.value < p
    ensures p > 1 && ModInv(ExtEuclidOf(a, b).reducedB, p).Ok? ==>
      var e := ExtEuclidOf(a, b);
      && (e.reducedB * res.value) % p == e.reducedA % p
      && (b * res.value) % p == a % p
  {
    if p <= 1 then Err(InvalidModulus)
    else
      var e := ExtEuclidOf(a, b);
      if e.reducedB == 1 then
        ExtEuclidFactors(a, b);
        Ok(e.reducedA)
      else
        var bInv := ExtEuclidOf(e.reducedB, p).bezoutX;
        var prod := (e.reducedA * bInv) % p;
        ModDivQuotient(a, b, p, bInv, prod);
        Ok(prod)
  }

  /** Multiplying by a Bezout coefficient of `rb` cancels `rb` modulo `p`. */
  lemma InverseCancels(ra: int, rb: int, p: int, bInv: int, y: int)
    requires p > 1 && rb * bInv + p * y == 1
    ensures (rb * ((ra * bInv) % p)) % p == ra % p
  {
    MulModRight(rb, ra * bInv, p);
    assert rb * (ra * bInv) == (-ra * y) * p + ra by {
      assert rb * (ra * bInv) == ra * (rb * bInv);
    }
    ModAddMultiple(-ra * y, p, ra);
  }

  /** A congruence modulo `p` survives multiplication by `g`. */
  lemma ScaleCongruence(g: int, u: int, v: int, p: int)
    requires p > 0 && u % p == v % p
    ensures (g * u) % p == (g * v) % p
  {
    MulModRight(g, u, p);
    MulModRight(g, v, p);
  }

  /** The arithmetic behind `moddiv`: with `a == g*ra`, `b == g*rb` and a
      Bezout identity for `rb` and `p`, the product `ra * bInv mod p` is a
      quotient of both `ra` by `rb` and `a` by `b`. */
  lemma QuotientOfReduced(a: int, b: int, g: int, ra: int, rb: int, p: int, bInv: int, y: int, prod: int)
    requires p > 1 && a == g * ra && b == g * rb
    requires rb * bInv + p * y == 1 && prod == (ra * bInv) % p
    ensures (rb * prod) % p == ra % p
    ensures (b * prod) % p == a % p
  {
    InverseCancels(ra, rb, p, bInv, y);
    ScaleCongruence(g, rb * prod, ra, p);
    assert b * prod == g * (rb * prod);
  }

  lemma ModDivQuotient(a: int, b: int, p: int, bInv: int, prod: int)
    requires p > 1
    requires bInv == ExtEuclidOf(ExtEuclidOf(a, b).reducedB, p).bezoutX
    requires prod == (ExtEuclidOf(a, b).reducedA * bInv) % p
    ensures ModInv(ExtEuclidOf(a, b).reducedB, p).Ok? ==>
      var e := ExtEuclidOf(a, b);
      && (e.reducedB * prod) % p == e.reducedA % p
      && (b * prod) % p == a % p
  {
    var e := ExtEuclidOf(a, b);
    if ModInv(e.reducedB, p).Ok? {
      var f := ExtEuclidOf(e.reducedB, p);
      assert f.gcd == 1;
      ExtEuclidFactors(e.reducedB, p);
      ExtEuclidFactors(a, b);
      QuotientOfReduced(a, b, Abs(e.gcd), e.reducedA, e.reducedB, p, bInv, f.bezoutY, prod);
    }
  }

  lemma RunOf28And8()
    ensures Run(EuclidState(28, 1, 0), EuclidState(8, 0, 1))
         == (EuclidState(4, 1, -3), EuclidState(0, -2, 7))
  {
  }

  lemma RunOf7And2()
    ensures Run(EuclidState(7, 1, 0), EuclidState(2, 0, 1))
         == (EuclidState(1, 1, -3), EuclidState(0, -2, 7))
  {
  }

  lemma RunOf2And17Start()
    ensures Run(EuclidState(2, 1, 0), EuclidState(17, 0, 1))
         == Run(EuclidState(2, 1, 0), EuclidState(1, -8, 1))
  {
  }

  lemma RunOf2And17End()
    ensures Run(EuclidState(2, 1, 0), EuclidState(1, -8, 1))
         == (EuclidState(1, -8, 1), EuclidState(0, 17, -2))
  {
  }

  lemma ExtEuclidOf28And8()
    ensures ExtEuclidOf(28, 8) == ExtEuclidResult(4, 1, -3, 7, 2)
  {
    RunOf28And8();
  }

  lemma ExtEuclidOf7And2()
    ensures ExtEuclidOf(7, 2) == ExtEuclidResult(1, 1, -3, 7, 2)
  {
    RunOf7And2();
  }

  lemma ExtEuclidOf2And17()
    ensures ExtEuclidOf(2, 17).bezoutX == -8
  {
    RunOf2And17Start();
    RunOf2And17End();
  }

  /** `moddiv` on a reduced divisor other than 1, as one equation. */
  lemma ModDivValue(a: int, b: int, p: int, ra: int, rb: int, bInv: int)
    requires p > 1 && ExtEuclidOf(a, b).reducedA == ra && ExtEuclidOf(a, b).reducedB == rb && rb != 1
    requires ExtEuclidOf(rb, p).bezoutX == bInv
    ensures ModDiv(a, b, p) == Ok((ra * bInv) % p)
  {
  }

  lemma ModDivOf28And8()
    ensures ModDiv(28, 8, 17) == Ok((7 * -8) % 17)
  {
    ExtEuclidOf28And8();
    ExtEuclidOf2And17();
    ModDivValue(28, 8, 17, 7, 2, -8);
  }

  lemma ModDivOf7And2()
    ensures ModDiv(7, 2, 17) == Ok((7 * -8) % 17)
  {
    ExtEuclidOf7And2();
    ExtEuclidOf2And17();
    ModDivValue(7, 2, 17, 7, 2, -8);
  }

  lemma ProductModulo17()
    ensures (7 * -8) % 17 == 12
  {
  }

  /** The first test vector of `test_moddiv`: 28/8 modulo 17. */
  lemma ModDivExample()
    ensures ModDiv(28, 8, 17) == Ok(12)
  {
    ModDivOf28And8();
    ProductModulo17();
  }

  /** The second test vector of `test_moddiv`: 7/2, the same quotient with
      the common factor 4 removed. */
  lemma ModDivReducedExample()
    ensures ModDiv(7, 2, 17) == Ok(12)
  {
    ModDivOf7And2();
    ProductModulo17();
  }
}

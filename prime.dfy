/** Primality filters and prime generators (`prime.rs`): trial division by
    the small-prime table, the safe-prime sieve, the Miller-Rabin test with
    its witnesses given as a parameter, and the rejection loops of
    `rand_prime` and `rand_safe_prime` over a finite sequence of draws. */
module Prime {
  import opened Arith
  import opened Consts
  import opened Rand
  import Euclid

  // ---------------------------------------------------------------------
  // Trial division
  // ---------------------------------------------------------------------

  /** `n % d` on `BigInt` for a positive `d`: the remainder of the division
      truncated towards zero, which takes the sign of `n`. */
  function TruncRem(n: int, d: int): (r: int)
    requires d > 0
    ensures -d < r < d
    ensures n >= 0 ==> r >= 0
    ensures n < 0 ==> r <= 0
  {
    if n >= 0 then n % d else -((-n) % d)
  }

  /** The truncated remainder leaves a multiple of `d`, so it is the
      remainder of `n == d * trunc(n / d) + r`. */
  lemma TruncRemDivision(n: int, d: int)
    requires d > 0
    ensures Divides(d, n - TruncRem(n, d))
  {
    if n >= 0 {
      assert n - TruncRem(n, d) == d * (n / d);
      DividesMul(d, n / d);
    } else {
      var q, r := (-n) / d, (-n) % d;
      assert -n == d * q + r;
      assert n - TruncRem(n, d) == d * -q;
      DividesMul(d, -q);
    }
  }

  /** The truncating remainder is zero exactly when the Euclidean one is, so
      `%` in `try_div` and `rem_euclid` in `is_prime` make the same test. */
  lemma TruncRemZero(n: int, d: int)
    requires d > 0
    ensures TruncRem(n, d) == 0 <==> n % d == 0
  {
    TruncRemDivision(n, d);
    if n % d == 0 {
      DividesCofactor(d, n);
      var q := n / d;
      if n < 0 {
        assert -n == d * -q;
        DivModUnique(-n, d, -q, 0);
      }
    }
  }

  /** No entry of the small-prime table divides `n`. */
  predicate NoSmallFactor(n: int) {
    forall i :: 0 <= i < |SmallPrimes| ==> !Divides(SmallPrimes[i], n)
  }

  /** `try_div(n)`: true exactly when no small prime divides `n`. */
  method TryDiv(n: int) returns (ok: bool)
    ensures ok <==> NoSmallFactor(n)
  {
    SmallPrimesRange();
    for i := 0 to |SmallPrimes|
      invariant forall j :: 0 <= j < i ==> !Divides(SmallPrimes[j], n)
    {
      var sp := SmallPrimes[i];
      TruncRemZero(n, sp);
      if TruncRem(n, sp) == 0 {
        return false;
      }
    }
    return true;
  }

  /** Every small prime fails trial division, because it divides itself;
      so `try_div` and `is_prime` both reject every entry of the table, 2
      included. */
  lemma SmallPrimeHasSmallFactor(i: int)
    requires 0 <= i < |SmallPrimes|
    ensures !NoSmallFactor(SmallPrimes[i])
  {
    SmallPrimesRange();
    DividesMul(SmallPrimes[i], 1);
  }

  // ---------------------------------------------------------------------
  // The safe-prime sieve
  // ---------------------------------------------------------------------

  /** Some odd entry `sp` of the table (every entry after 2) leaves the
      truncated remainder `sp >> 1` on `n`. */
  predicate SieveHit(n: int) {
    SmallPrimesRange();
    exists i :: 1 <= i < |SmallPrimes| && TruncRem(n, SmallPrimes[i]) == SmallPrimes[i] / 2
  }

  /** `half_small_prime(n)`, the nested helper of `rand_safe_prime`. */
  method HalfSmallPrime(n: int) returns (hit: bool)
    ensures hit <==> SieveHit(n)
  {
    SmallPrimesRange();
    for i := 1 to |SmallPrimes|
      invariant forall j :: 1 <= j < i ==> TruncRem(n, SmallPrimes[j]) != SmallPrimes[j] / 2
    {
      var sp := SmallPrimes[i];
      var half := sp / 2;
      if TruncRem(n, sp) == half {
        return true;
      }
    }
    return false;
  }

  /** For an odd `sp >= 3` and `q >= 0`, `q mod sp == sp >> 1` exactly when
      `sp` divides `2q + 1`. */
  lemma HalfRemainder(q: int, sp: int)
    requires q >= 0 && sp >= 3 && sp % 2 == 1
    ensures q % sp == sp / 2 <==> Divides(sp, 2 * q + 1)
  {
    var h := sp / 2;
    assert sp == 2 * h + 1;
    var k, r := q / sp, q % sp;
    assert 2 * q + 1 == sp * (2 * k) + (2 * r + 1);
    if r == h {
      DivModUnique(2 * q + 1, sp, 2 * k + 1, 0);
    } else if r < h {
      DivModUnique(2 * q + 1, sp, 2 * k, 2 * r + 1);
    } else {
      DivModUnique(2 * q + 1, sp, 2 * k + 1, 2 * r + 1 - sp);
    }
  }

  /** The sieve rejects a non-negative `q` exactly when an odd small prime
      divides `p = 2q + 1`, the safe-prime candidate built from it. */
  lemma SieveMeaning(q: int)
    requires q >= 0
    ensures SieveHit(q) <==> exists i :: 1 <= i < |SmallPrimes| && Divides(SmallPrimes[i], 2 * q + 1)
  {
    SmallPrimesShape();
    forall i | 1 <= i < |SmallPrimes|
      ensures TruncRem(q, SmallPrimes[i]) == SmallPrimes[i] / 2 <==> Divides(SmallPrimes[i], 2 * q + 1)
    {
      HalfRemainder(q, SmallPrimes[i]);
    }
  }

  /** A negative `q` never triggers the sieve: its truncated remainders are
      not positive, while every `sp >> 1` is. */
  lemma SieveMissesNegatives(q: int)
    requires q < 0
    ensures !SieveHit(q)
  {
    SmallPrimesShape();
  }

  // ---------------------------------------------------------------------
  // Miller-Rabin: specification
  // ---------------------------------------------------------------------

  /** `b.modpow(e, m)` for a positive modulus. */
  function ModPow(b: int, e: nat, m: int): (r: int)
    requires m > 0
    ensures 0 <= r < m
  {
    if e == 0 then 1 % m else (b * ModPow(b, e - 1, m)) % m
  }

  /** `ModPow` is exponentiation reduced modulo `m`. */
  lemma {:induction false} ModPowIsPow(b: int, e: nat, m: int)
    requires m > 0
    ensures ModPow(b, e, m) == Pow(b, e) % m
  {
    if e > 0 {
      ModPowIsPow(b, e - 1, m);
      MulModRight(b, Pow(b, e - 1), m);
    }
  }

  /** The decomposition `m == 2^s * d` with `d` odd, for `m != 0`. */
  function TwoAdic(m: int): (sd: (nat, int))
    requires m != 0
    ensures m == Pow2(sd.0) * sd.1 && sd.1 % 2 == 1
    ensures m > 0 ==> sd.1 > 0
    decreases Abs(m)
  {
    if m % 2 == 1 then (0, m)
    else
      var sd := TwoAdic(m / 2);
      (sd.0 + 1, sd.1)
  }

  lemma DoubleProduct(p: int, d: int)
    ensures (2 * p) * d == 2 * (p * d)
  {
  }

  /** The decomposition is unique. */
  lemma {:induction false} TwoAdicUnique(m: int, s: nat, d: int)
    requires m == Pow2(s) * d && d % 2 == 1
    ensures m != 0 && TwoAdic(m) == (s, d)
    decreases s
  {
    if s > 0 {
      var h := Pow2(s - 1) * d;
      DoubleProduct(Pow2(s - 1), d);
      TwoAdicUnique(h, s - 1, d);
      DivModUnique(m, 2, h, 0);
    }
  }

  /** `x(r) = a^(2^r * d) mod n`, the value `x` holds after `r` squarings. */
  function SquareChain(n: int, a: int, d: nat, r: nat): int
    requires n > 0
  {
    ModPow(a, Pow2(r) * d, n)
  }

  /** One Miller-Rabin round with witness `a`, on `n - 1 == 2^s * d`, as the
      source decides it: `a^d mod n` is 1 or `n - 1`, or a later `x(r)` with
      `0 < r < s` is `n - 1`. For even `n` (`s == 0`) only the first test is
      made. */
  predicate StrongRound(n: int, a: int, s: nat, d: nat)
    requires n > 0
  {
    || SquareChain(n, a, d, 0) == 1
    || SquareChain(n, a, d, 0) == n - 1
    || exists r :: 0 < r < s && SquareChain(n, a, d, r) == n - 1
  }

  /** The round that `miller_rabin` runs on `n` with witness `a`. */
  predicate RoundPasses(n: int, a: int) {
    n >= 2 && StrongRound(n, a, TwoAdic(n - 1).0, TwoAdic(n - 1).1)
  }

  /** Squaring `x(r)` modulo `n` gives `x(r + 1)`. */
  lemma SquareStep(n: int, a: int, d: nat, r: nat)
    requires n > 0
    ensures ModPow(SquareChain(n, a, d, r), 2, n) == SquareChain(n, a, d, r + 1)
  {
    var e: nat := Pow2(r) * d;
    var x := SquareChain(n, a, d, r);
    var p := Pow(a, e);
    assert Pow2(r + 1) * d == e + e;
    ModPowIsPow(a, e, n);
    assert x == p % n;
    ModPowTwo(x, n);
    MulMod(p, p, n);
    assert ModPow(x, 2, n) == (p * p) % n;
    PowAdd(a, e, e);
    ModPowIsPow(a, e + e, n);
  }

  lemma ModPowOne(x: int, n: int)
    requires n > 0
    ensures ModPow(x, 1, n) == x % n
  {
    assert ModPow(x, 1, n) == (x * (1 % n)) % n;
    if n > 1 {
      assert 1 % n == 1;
    }
  }

  /** Squaring modulo `n` is `x * x mod n`. */
  lemma ModPowTwo(x: int, n: int)
    requires n > 0
    ensures ModPow(x, 2, n) == (x * x) % n
  {
    ModPowOne(x, n);
    assert ModPow(x, 2, n) == (x * ModPow(x, 1, n)) % n;
    MulModRight(x, x, n);
  }

  lemma SquareOfPredecessor(n: int)
    requires n >= 2
    ensures ((n - 1) * (n - 1)) % n == 1
  {
    var m := n - 1;
    assert m * m == m * n - m;
    assert m * n - m == (n - 2) * n + 1;
    ModAddMultiple(n - 2, n, 1);
  }

  /** `(n - 1)^2 == 1 (mod n)`. */
  lemma MinusOneSquares(n: int)
    requires n >= 2
    ensures ModPow(n - 1, 2, n) == 1
  {
    SquareOfPredecessor(n);
    ModPowTwo(n - 1, n);
  }

  lemma OneSquares(n: int)
    requires n >= 2
    ensures ModPow(1, 2, n) == 1
  {
    OneMod(n);
    ModPowOne(1, n);
    assert ModPow(1, 2, n) == (1 * ModPow(1, 1, n)) % n;
  }

  /** Once some `x(r)` is 1, every later one is 1 too (footnote MR-2). */
  lemma {:induction false} OnesStayOnes(n: int, a: int, d: nat, r: nat, r': nat)
    requires n >= 2 && r <= r' && SquareChain(n, a, d, r) == 1
    ensures SquareChain(n, a, d, r') == 1
    decreases r' - r
  {
    if r < r' {
      SquareStep(n, a, d, r);
      OneSquares(n);
      OnesStayOnes(n, a, d, r + 1, r');
    }
  }

  /** `x` is a square root of 1 modulo `n` other than 1 and `n - 1`. */
  predicate NontrivialRoot(n: int, x: int) {
    n > 0 && 0 <= x < n && x != 1 && x != n - 1 && (x * x) % n == 1
  }

  /** `x^2 == 1 (mod n)` means `n` divides `(x - 1)(x + 1)`. */
  lemma RootFactors(n: int, x: int)
    requires n > 0 && (x * x) % n == 1
    ensures Divides(n, (x - 1) * (x + 1))
  {
    var q := (x * x) / n;
    assert x * x == n * q + 1;
    assert (x - 1) * (x + 1) == x * x - 1;
    DividesMul(n, q);
  }

  /** A non-trivial square root of 1 modulo `n` proves `n` composite
      (footnote MR-1): a prime `n` dividing `(x - 1)(x + 1)` must divide a
      factor, yet both factors lie strictly between 0 and `n`. */
  lemma NontrivialRootComposite(n: int, x: int)
    requires NontrivialRoot(n, x)
    ensures !Prime(n)
  {
    if Prime(n) {
      var e := Euclid.ExtEuclidOf(x - 1, n);
      PrimeBezout(n, x - 1);
      RootFactors(n, x);
      DividesByBezout(n, x - 1, x + 1, e.bezoutX, e.bezoutY);
      DivisorBound(n, x + 1);
    }
  }

  /** For a prime `n` and `0 < y < n`, `ext_euclid(y, n)` returns gcd 1, so
      its cofactors combine `y` and `n` into 1. */
  lemma PrimeBezout(n: int, y: int)
    requires Prime(n) && 0 < y < n
    ensures var e := Euclid.ExtEuclidOf(y, n); y * e.bezoutX + n * e.bezoutY == 1
  {
    var e := Euclid.ExtEuclidOf(y, n);
    Euclid.ExtEuclidGcdSign(y, n);
    Euclid.ExtEuclidGcdDivides(y, n);
    Euclid.ExtEuclidFactors(y, n);
    DivisorBound(e.gcd, y);
    assert !(1 < e.gcd < n && Divides(e.gcd, n));
  }

  /** The rejection inside the squaring loop: `x(r)` is 1 while `x(r - 1)`
      is neither 1 nor `n - 1`, so `n` is composite. */
  lemma RejectionComposite(n: int, a: int, d: nat, r: nat)
    requires n >= 2 && r >= 1
    requires SquareChain(n, a, d, r) == 1
    requires SquareChain(n, a, d, r - 1) != 1 && SquareChain(n, a, d, r - 1) != n - 1
    ensures !Prime(n)
  {
    SquareStep(n, a, d, r - 1);
    ModPowTwo(SquareChain(n, a, d, r - 1), n);
    NontrivialRootComposite(n, SquareChain(n, a, d, r - 1));
  }

  /** The textbook form of a round: the Fermat test `a^(n-1) == 1 (mod n)`
      holds and no squaring step turns a non-trivial root into 1. */
  predicate FermatAndRoots(n: int, a: int, s: nat, d: nat)
    requires n > 0
  {
    && SquareChain(n, a, d, s) == 1
    && forall j :: 0 < j <= s ==> !NewOne(n, a, d, j)
  }

  /** Step `j` squares a value other than 1 and `n - 1` into 1. */
  predicate NewOne(n: int, a: int, d: nat, j: nat)
    requires n > 0 && j >= 1
  {
    && SquareChain(n, a, d, j) == 1
    && SquareChain(n, a, d, j - 1) != 1
    && SquareChain(n, a, d, j - 1) != n - 1
  }

  /** If the round fails, none of `x(0) .. x(j)` is 1. */
  lemma {:induction false} NoOneBefore(n: int, a: int, s: nat, d: nat, j: nat)
    requires n >= 3 && j <= s
    requires !StrongRound(n, a, s, d)
    requires forall i :: 0 < i <= s ==> !NewOne(n, a, d, i)
    ensures forall i :: 0 <= i <= j ==> SquareChain(n, a, d, i) != 1
  {
    if j > 0 {
      NoOneBefore(n, a, s, d, j - 1);
      assert !NewOne(n, a, d, j);
      if j - 1 > 0 {
        assert SquareChain(n, a, d, j - 1) != n - 1;
      }
    }
  }

  /** After a first `n - 1` at `x(r0)`, every later `x` is 1 and no step
      is a non-trivial root. */
  lemma AfterMinusOne(n: int, a: int, s: nat, d: nat, r0: nat)
    requires n >= 3 && r0 < s
    requires SquareChain(n, a, d, r0) == n - 1
    requires forall i :: 0 <= i <= r0 ==> SquareChain(n, a, d, i) != 1
    ensures FermatAndRoots(n, a, s, d)
  {
    SquareStep(n, a, d, r0);
    MinusOneSquares(n);
    OnesStayOnes(n, a, d, r0 + 1, s);
    forall j | 0 < j <= s
      ensures !NewOne(n, a, d, j)
    {
      if j > r0 + 1 {
        OnesStayOnes(n, a, d, r0 + 1, j - 1);
      }
    }
  }

  /** The early exit of the squaring loop (src/prime.rs:113-115) does not
      change the verdict: for odd `n` the source's round passes exactly when
      the Fermat test holds and no non-trivial square root of 1 shows up. */
  lemma EarlyExitVerdict(n: int, a: int, s: nat, d: nat)
    requires n >= 3 && s >= 1
    ensures StrongRound(n, a, s, d) <==> FermatAndRoots(n, a, s, d)
  {
    if StrongRound(n, a, s, d) {
      if SquareChain(n, a, d, 0) == 1 {
        OnesStayOnes(n, a, d, 0, s);
        forall j | 0 < j <= s
          ensures !NewOne(n, a, d, j)
        {
          OnesStayOnes(n, a, d, 0, j - 1);
        }
      } else if SquareChain(n, a, d, 0) == n - 1 {
        AfterMinusOne(n, a, s, d, 0);
      } else {
        var r :| 0 < r < s && SquareChain(n, a, d, r) == n - 1;
        forall i | 0 <= i <= r
          ensures SquareChain(n, a, d, i) != 1
        {
          if SquareChain(n, a, d, i) == 1 {
            OnesStayOnes(n, a, d, i, r);
          }
        }
        AfterMinusOne(n, a, s, d, r);
      }
    } else if FermatAndRoots(n, a, s, d) {
      NoOneBefore(n, a, s, d, s);
    }
  }

  // ---------------------------------------------------------------------
  // Miller-Rabin: the test
  // ---------------------------------------------------------------------

  /** The loop at src/prime.rs:83-91: strip factors of 2 from `m`, giving
      `m == 2^s * d` with `d` odd. It terminates for every `m != 0`; for
      `m == 0` (`n == 1`) the source loops forever. */
  method Decompose(m: int) returns (s: nat, d: int)
    requires m != 0
    ensures m == Pow2(s) * d && d % 2 == 1
    ensures (s, d) == TwoAdic(m)
  {
    d := m;
    s := 0;
    while d % 2 == 0
      invariant d != 0
      invariant TwoAdic(m) == (s + TwoAdic(d).0, TwoAdic(d).1)
      decreases Abs(d)
    {
      d := d / 2;
      s := s + 1;
    }
  }

  /** `n` can run `trial` rounds with the witnesses `ws`: one per round,
      each in `[2, n - 2)`, the half-open range `gen_bigint_range` draws
      from. */
  predicate WitnessesFor(n: int, ws: seq<int>, trial: nat) {
    |ws| == trial && forall i :: 0 <= i < |ws| ==> 2 <= ws[i] < n - 2
  }

  /** `miller_rabin(n, trial)` with the witnesses of `OsRng` given as `ws`:
      true exactly when every round passes, so `trial == 0` gives true. */
  method MillerRabin(n: int, trial: nat, ws: seq<int>) returns (ok: bool)
    requires n != 1
    requires WitnessesFor(n, ws, trial)
    ensures ok <==> forall i :: 0 <= i < trial ==> RoundPasses(n, ws[i])
  {
    var nMinusOne := n - 1;
    var nMinusTwo := n - 2;
    var s, d := Decompose(nMinusOne);
    label outer:
    for t := 0 to trial
      invariant forall i :: 0 <= i < t ==> RoundPasses(n, ws[i])
    {
      var a := ws[t];
      assert n >= 5 && d > 0;
      var x := ModPow(a, d, n);
      assert x == SquareChain(n, a, d, 0);
      if x == 1 || x == nMinusOne {
        continue outer;
      }
      for r := 1 to s + 1
        invariant x == SquareChain(n, a, d, r - 1)
        invariant forall j :: 0 <= j < r ==> SquareChain(n, a, d, j) != 1
        invariant forall j :: 0 <= j < r - 1 ==> SquareChain(n, a, d, j) != n - 1
      {
        var xWasMinusOne := x == nMinusOne;
        SquareStep(n, a, d, r - 1);
        MinusOneSquares(n);
        x := ModPow(x, 2, n);
        var xIsOne := x == 1;
        if xIsOne && !xWasMinusOne {
          RoundFailsAt(n, a, s, d, r);
          return false;
        }
        if xIsOne {
          assert SquareChain(n, a, d, r - 1) == n - 1;
          continue outer;
        }
      }
      assert !StrongRound(n, a, s, d);
      return false;
    }
    return true;
  }

  /** A round whose first 1 appears at step `r` without `n - 1` before it
      fails. */
  lemma RoundFailsAt(n: int, a: int, s: nat, d: nat, r: nat)
    requires n >= 3 && 1 <= r <= s
    requires SquareChain(n, a, d, r) == 1
    requires forall j :: 0 <= j < r ==> SquareChain(n, a, d, j) != n - 1
    requires SquareChain(n, a, d, 0) != 1
    ensures !StrongRound(n, a, s, d)
  {
    forall k | r <= k < s
      ensures SquareChain(n, a, d, k) != n - 1
    {
      OnesStayOnes(n, a, d, r, k);
    }
  }

  /** `is_prime(n)`: no small prime divides `n` (tested with `rem_euclid`)
      and four Miller-Rabin rounds pass. */
  method IsPrime(n: int, ws: seq<int>) returns (b: bool)
    requires NoSmallFactor(n) ==> WitnessesFor(n, ws, 4)
    ensures b <==> NoSmallFactor(n) && forall i :: 0 <= i < 4 ==> RoundPasses(n, ws[i])
  {
    SmallPrimesRange();
    for i := 0 to |SmallPrimes|
      invariant forall j :: 0 <= j < i ==> !Divides(SmallPrimes[j], n)
    {
      var smallPrime := SmallPrimes[i];
      if n % smallPrime == 0 {
        return false;
      }
    }
    assert 2 <= ws[0] < n - 2;
    b := MillerRabin(n, 4, ws);
  }

  // ---------------------------------------------------------------------
  // Generators
  // ---------------------------------------------------------------------

  datatype Option<T> = None | Some(value: T)

  /** What one pass of `rand_prime`'s loop draws: the bytes behind
      `rand_exact_nbits` and the five Miller-Rabin witnesses. */
  datatype Draw = Draw(bytes: seq<byte>, witnesses: seq<int>)

  /** What one pass of `rand_safe_prime`'s loop draws: the bytes behind `q`
      and the witnesses of the two Miller-Rabin tests. */
  datatype SafeDraw = SafeDraw(bytes: seq<byte>, qWitnesses: seq<int>, pWitnesses: seq<int>)

  /** `rand_exact_nbits(k)` with bit 0 then set. */
  function OddCandidate(k: nat, bytes: seq<byte>): nat
    requires k > 0 ==> |bytes| == (k + 7) / 8
  {
    SetBit(ExactBits(k, bytes), 0)
  }

  /** Setting bit 0 keeps the exact bit length: the candidate is odd and
      lies in `[2^(k-1), 2^k)`. */
  lemma OddCandidateRange(k: nat, bytes: seq<byte>)
    requires k >= 1 && |bytes| == (k + 7) / 8
    ensures OddCandidate(k, bytes) % 2 == 1
    ensures Pow2(k - 1) <= OddCandidate(k, bytes) < Pow2(k)
  {
    var e := ExactBits(k, bytes);
    ExactBitsRange(k, bytes);
    SetBitZero(e);
    if e % 2 == 0 {
      DivModUnique(Pow2(k), 2, Pow2(k - 1), 0);
      EvenGap(e, Pow2(k));
    }
  }

  /** An even number below another even number is at least 2 below it. */
  lemma EvenGap(e: int, m: int)
    requires e % 2 == 0 && m % 2 == 0 && e < m
    ensures e + 1 < m
  {
    var a, b := e / 2, m / 2;
    assert e == 2 * a && m == 2 * b;
  }

  /** The draws `rand_prime(nbits)` can meet: bytes of the right length, and
      witnesses valid for the candidate whenever it reaches Miller-Rabin. */
  predicate PrimeDrawFits(nbits: nat, dr: Draw)
    requires nbits >= 2
  {
    && |dr.bytes| == (nbits + 7) / 8
    && (NoSmallFactor(OddCandidate(nbits, dr.bytes)) ==>
          WitnessesFor(OddCandidate(nbits, dr.bytes), dr.witnesses, 5))
  }

  /** `rand_prime` returns the candidate of this draw. */
  predicate PrimeAccepted(nbits: nat, dr: Draw)
    requires nbits >= 2 && PrimeDrawFits(nbits, dr)
  {
    var p := OddCandidate(nbits, dr.bytes);
    NoSmallFactor(p) && forall i :: 0 <= i < 5 ==> RoundPasses(p, dr.witnesses[i])
  }

  /** `rand_prime(nbits)` over the finite sequence `draws`: the candidate of
      the first accepted draw, which is odd, has bit length `nbits`, passes
      trial division and five Miller-Rabin rounds; `None` when every draw is
      rejected. */
  method RandPrime(nbits: nat, draws: seq<Draw>) returns (res: Option<int>)
    requires nbits >= 2
    requires forall k :: 0 <= k < |draws| ==> PrimeDrawFits(nbits, draws[k])
    ensures res.None? ==> forall k :: 0 <= k < |draws| ==> !PrimeAccepted(nbits, draws[k])
    ensures res.Some? ==>
      exists k :: 0 <= k < |draws| && PrimeAccepted(nbits, draws[k])
        && res.value == OddCandidate(nbits, draws[k].bytes)
        && forall j :: 0 <= j < k ==> !PrimeAccepted(nbits, draws[j])
    ensures res.Some? ==>
      res.value % 2 == 1 && Pow2(nbits - 1) <= res.value < Pow2(nbits) && NoSmallFactor(res.value)
  {
    for k := 0 to |draws|
      invariant forall j :: 0 <= j < k ==> !PrimeAccepted(nbits, draws[j])
    {
      var found, p := PrimeAttempt(nbits, draws[k]);
      if found {
        OddCandidateRange(nbits, draws[k].bytes);
        return Some(p);
      }
    }
    return None;
  }

  /** One pass of `rand_prime`'s loop: build the odd candidate from the
      draw's bytes, then trial division and Miller-Rabin with the draw's
      witnesses; `found` says whether the loop returns it. */
  method PrimeAttempt(nbits: nat, dr: Draw) returns (found: bool, p: nat)
    requires nbits >= 2 && PrimeDrawFits(nbits, dr)
    ensures p == OddCandidate(nbits, dr.bytes)
    ensures found <==> PrimeAccepted(nbits, dr)
  {
    p := RandExactNBits(nbits, dr.bytes);
    p := SetBit(p, 0);
    var passes := TryDiv(p);
    if !passes {
      return false, p;
    }
    assert 2 <= dr.witnesses[0] < p - 2;
    found := MillerRabin(p, 5, dr.witnesses);
  }

  /** The three trial filters of `rand_safe_prime` on `q` and `p = 2q + 1`. */
  predicate SafeFilters(q: int) {
    NoSmallFactor(q) && !SieveHit(q) && NoSmallFactor(2 * q + 1)
  }

  /** `q`, the Sophie Germain candidate of a draw. */
  function SophieCandidate(nbits: nat, bytes: seq<byte>): nat
    requires nbits >= 1 && |bytes| == (nbits + 6) / 8
  {
    OddCandidate(nbits - 1, bytes)
  }

  /** The draws `rand_safe_prime(nbits)` can meet: bytes for `nbits - 1`
      bits, and witnesses valid for `q` and for `p` whenever they reach
      their Miller-Rabin test. */
  predicate SafeDrawFits(nbits: nat, dr: SafeDraw)
    requires nbits >= 1
  {
    && |dr.bytes| == (nbits + 6) / 8
    && var q := SophieCandidate(nbits, dr.bytes);
       && (SafeFilters(q) ==> WitnessesFor(q, dr.qWitnesses, 5))
       && (SafeFilters(q) && (forall i :: 0 <= i < 5 ==> RoundPasses(q, dr.qWitnesses[i])) ==>
             WitnessesFor(2 * q + 1, dr.pWitnesses, 5))
  }

  /** `rand_safe_prime` returns `2q + 1` for this draw. */
  predicate SafeAccepted(nbits: nat, dr: SafeDraw)
    requires nbits >= 1 && SafeDrawFits(nbits, dr)
  {
    var q := SophieCandidate(nbits, dr.bytes);
    && SafeFilters(q)
    && (forall i :: 0 <= i < 5 ==> RoundPasses(q, dr.qWitnesses[i]))
    && (forall i :: 0 <= i < 5 ==> RoundPasses(2 * q + 1, dr.pWitnesses[i]))
  }

  /** `p = 2q + 1` built from an odd `q` of bit length `nbits - 1` has bit
      length `nbits`, and `q` is recovered as `p >> 1`. */
  lemma SafePrimeShape(nbits: nat, bytes: seq<byte>)
    requires nbits >= 1 && |bytes| == (nbits + 6) / 8
    ensures var q := SophieCandidate(nbits, bytes);
      && (2 * q + 1) / 2 == q && q % 2 == 1
      && (nbits >= 2 ==> Pow2(nbits - 1) < 2 * q + 1 < Pow2(nbits))
  {
    SetBitZero(ExactBits(nbits - 1, bytes));
    if nbits >= 2 {
      OddCandidateRange(nbits - 1, bytes);
      assert Pow2(nbits) == 2 * Pow2(nbits - 1);
    }
  }

  /** What `rand_safe_prime(nbits)` promises of its result `p`: `p = 2q + 1`
      for an odd `q = p >> 1`, both pass trial division, `q` is clear of the
      sieve, and `p` has bit length `nbits` when `nbits >= 2`. */
  predicate SafePrimeShaped(nbits: nat, p: int) {
    var q := p / 2;
    && p == 2 * q + 1 && q % 2 == 1
    && NoSmallFactor(q) && !SieveHit(q) && NoSmallFactor(p)
    && (nbits >= 2 ==> Pow2(nbits - 1) < p < Pow2(nbits))
  }

  /** An accepted draw gives a result of the promised shape. */
  lemma SafeAcceptedShape(nbits: nat, dr: SafeDraw)
    requires nbits >= 1 && SafeDrawFits(nbits, dr) && SafeAccepted(nbits, dr)
    ensures SafePrimeShaped(nbits, 2 * SophieCandidate(nbits, dr.bytes) + 1)
  {
    SafePrimeShape(nbits, dr.bytes);
  }

  /** `rand_safe_prime(nbits)` over the finite sequence `draws`: `p = 2q + 1`
      (the `(&q << 1) + 1` of src/prime.rs:38) for the first accepted draw,
      with `q` odd, both passing trial division, `q` clear of the sieve and
      both passing five Miller-Rabin rounds; `None` when every draw is
      rejected. */
  method RandSafePrime(nbits: nat, draws: seq<SafeDraw>) returns (res: Option<int>)
    requires nbits >= 1
    requires forall k :: 0 <= k < |draws| ==> SafeDrawFits(nbits, draws[k])
    ensures res.None? ==> forall k :: 0 <= k < |draws| ==> !SafeAccepted(nbits, draws[k])
    ensures res.Some? ==>
      exists k :: 0 <= k < |draws| && SafeAccepted(nbits, draws[k])
        && res.value == 2 * SophieCandidate(nbits, draws[k].bytes) + 1
        && forall j :: 0 <= j < k ==> !SafeAccepted(nbits, draws[j])
    ensures res.Some? ==> SafePrimeShaped(nbits, res.value)
  {
    for k := 0 to |draws|
      invariant forall j :: 0 <= j < k ==> !SafeAccepted(nbits, draws[j])
    {
      var found, p := SafeAttempt(nbits, draws[k]);
      if found {
        SafeAcceptedShape(nbits, draws[k]);
        return Some(p);
      }
    }
    return None;
  }

  /** One pass of `rand_safe_prime`'s loop: build `q` and `p = 2q + 1`, then
      the filters in the source's order (trial division of `q`, the sieve,
      trial division of `p`, Miller-Rabin on `q`, Miller-Rabin on `p`);
      `found` says whether the loop returns `p`. */
  method SafeAttempt(nbits: nat, dr: SafeDraw) returns (found: bool, p: nat)
    requires nbits >= 1 && SafeDrawFits(nbits, dr)
    ensures p == 2 * SophieCandidate(nbits, dr.bytes) + 1
    ensures found <==> SafeAccepted(nbits, dr)
  {
    var q := RandExactNBits(nbits - 1, dr.bytes);
    q := SetBit(q, 0);
    assert q == SophieCandidate(nbits, dr.bytes);
    p := 2 * q + 1;
    var filtered := SafeTrialFilters(q);
    if !filtered {
      return false, p;
    }
    assert WitnessesFor(q, dr.qWitnesses, 5);
    assert 2 <= dr.qWitnesses[0] < q - 2;
    var qProbable := MillerRabin(q, 5, dr.qWitnesses);
    if !qProbable {
      return false, p;
    }
    assert WitnessesFor(p, dr.pWitnesses, 5);
    found := MillerRabin(p, 5, dr.pWitnesses);
  }

  /** The three cheap filters of one pass of `rand_safe_prime`, in the
      source's order: trial division of `q`, the sieve on `q`, trial division
      of `2q + 1`. */
  method SafeTrialFilters(q: int) returns (ok: bool)
    ensures ok <==> SafeFilters(q)
  {
    var qPasses := TryDiv(q);
    if !qPasses {
      return false;
    }
    var hit := HalfSmallPrime(q);
    if hit {
      return false;
    }
    ok := TryDiv(2 * q + 1);
  }
}

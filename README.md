# num-bigint-ext in Dafny

This is a Dafny model of the arithmetic core of `num-bigint-ext`, a small Rust library of exact big-integer algorithms. It covers:

- the extended Euclidean algorithm (`ext_euclid`) and the modular inverse and modular division built on it (`modinv`, `moddiv`);
- trial division by a table of small primes (`try_div`, `is_prime`);
- the Miller-Rabin test (`miller_rabin`);
- the safe-prime sieve (`half_small_prime`);
- the rejection loops that generate primes and safe primes (`rand_prime`, `rand_safe_prime`);
- the shaping of random bytes into fixed-length integers (`rand_nbits`, `rand_exact_nbits`).

Big integers are Dafny's unbounded `int`. Randomness becomes input:

- the bytes `OsRng.fill_bytes` would write are a `seq<byte>` parameter;
- the Miller-Rabin witnesses `gen_bigint_range` would draw are a `seq<int>` parameter.

Modules:

- `Arith` (`arith.dfy`): divisibility, primality, powers and division facts shared by the others.
- `Consts` (`consts.dfy`): the small-prime table.
- `Euclid` (`euclid.dfy`): `ext_euclid`, `modinv`, `moddiv`.
  - `ext_euclid` is a method with a `while` loop over the two mutable state records. It is proved against the function `ExtEuclidOf`; the lemmas are about that function.
  - `modinv` and `moddiv` are functions returning `Result<int>`.
- `Rand` (`rand.dfy`): big-endian decoding, right shift, `set_bit`, and the two methods of `RandFixedLength`.
- `Prime` (`prime.dfy`): truncating remainder, trial division, the sieve, the Miller-Rabin specification and its lemmas, the `miller_rabin` method, and the two generators.
  - The method keeps the labelled nested loops with `continue outer`.
  - The generators are `for` loops over a finite sequence of draws. One pass of each loop body is a method of its own (`PrimeAttempt`, `SafeAttempt`), whose early returns stand for the source's `continue`s.

Where the code and the library's own documentation disagree, the model follows the code:

- **The sign of `gcd`.** The doc comment promises `a == gcd * reduced_a` (src/euclid.rs:25, 32-33). The loop does not make `gcd` non-negative: it is negative when `b < 0` divides `a`, or when `b == 0 > a`.
  - The model proves the factorisation by `abs(gcd)` for all inputs, and by `gcd` itself whenever `gcd >= 0` (in particular whenever `b > 0`).
  - `ExtEuclidGcdSign` characterises the sign exactly.
  - `ExtEuclidNegativeGcd` gives `ext_euclid(4, -2)`, where `gcd == -2`.
- **`moddiv` does not check that an inverse exists.** For `p > 1` it always returns a value. The quotient property is proved whenever `reduced_b` is invertible modulo `p`.
- **The witness range is half-open.** `gen_bigint_range(2, n-2)` draws from `[2, n-2)`, so witnesses satisfy `2 <= a < n - 2`.
- **`rand_nbits` does not mask to `nbits` bits.** It is bounded only by `2^(8 * nbytes)`.
- **`is_prime` rejects every table entry, 2 and 3 included**, because each one divides itself.

## Model

| member | source | states |
|---|---|---|
| `Euclid.Next` | src/euclid.rs:48-53 | one loop step leaves a Euclidean remainder in `[0, abs(curr.r))`, so `abs(curr.r)` strictly decreases and the loop ends |
| `Euclid.NextTracks` | src/euclid.rs:49-53 | one iteration keeps `prev.r == a*prev.x + b*prev.y` and `curr.r == a*curr.x + b*curr.y` and flips the sign of the coefficient determinant (which stays 1 or -1) |
| `Euclid.RunTracks` | src/euclid.rs:48-54 | the whole remainder loop keeps those invariants |
| `Euclid.ExtEuclid` | src/euclid.rs:36-68 | the loop plus sign flips returns `ExtEuclidOf(a, b)`; `gcd == a*bezout_x + b*bezout_y`; `a == abs(gcd)*reduced_a` and `b == abs(gcd)*reduced_b`; the factorisation by `gcd` itself when `gcd >= 0` |
| `Euclid.ExtEuclidFactors` | src/euclid.rs:19-34 | the Bezout identity; the factorisation by `abs(gcd)` (by `gcd` when `gcd >= 0`); `reduced_a` and `reduced_b` coprime |
| `Euclid.ExtEuclidGcdDivides` | src/euclid.rs:25 | the returned gcd divides `a` and `b` |
| `Euclid.ExtEuclidGreatest` | src/euclid.rs:19-25 | every common divisor of `a` and `b` divides the returned gcd, so `abs(gcd)` is the greatest common divisor |
| `Euclid.ExtEuclidUnitGcd` | src/euclid.rs:21-23 | if `gcd == 1` then `a*bezout_x == 1 (mod b)` and `b*bezout_y == 1 (mod a)` |
| `Euclid.ExtEuclidGcdSign` | src/euclid.rs:55-67 | `gcd == 0` iff `a == b == 0`; `gcd > 0` iff `b > 0`, or `b == 0 < a`, or `b < 0` does not divide `a` |
| `Euclid.ExtEuclidExample` | src/euclid.rs:100-111 | `ext_euclid(288, 396) == {36, -4, 3, 8, 11}` |
| `Euclid.ExtEuclidNegativeGcd` | src/euclid.rs:25 | `ext_euclid(4, -2) == {-2, 0, 1, 2, -1}`: the gcd is negative and `4 != gcd * reduced_a` |
| `Euclid.ModInv` | src/euclid.rs:85-95 | `p <= 1` gives `InvalidModulus`; any other error is `NoModularInverse`; a success `r` has `0 <= r < p` and `(a*r) mod p == 1` |
| `Euclid.BezoutInverse` | src/euclid.rs:94 | from `a*x + p*y == 1`, `x mod p` is an inverse of `a` modulo `p` |
| `Euclid.ModInvExactness` | src/euclid.rs:88-94 | for `p > 1`, `modinv` succeeds iff some inverse of `a` modulo `p` exists |
| `Euclid.ModInvExample` | src/euclid.rs:128-133 | `modinv(-2, 17) == 8` |
| `Euclid.ModDiv` | src/euclid.rs:70-83 | `p <= 1` gives `InvalidModulus`; otherwise always `Ok`; `reduced_b == 1` returns `reduced_a` unreduced; otherwise the value lies in `[0, p)`; if `reduced_b` is invertible then `reduced_b*r == reduced_a` and `b*r == a (mod p)` |
| `Euclid.QuotientOfReduced` | src/euclid.rs:79-82 | with `a == g*ra` and `b == g*rb` and a Bezout identity for `rb` and `p`, `ra*bezout_x mod p` is a quotient of `ra` by `rb` and of `a` by `b` |
| `Euclid.ModDivExample` | src/euclid.rs:115-120 | `moddiv(28, 8, 17) == 12` |
| `Euclid.ModDivReducedExample` | src/euclid.rs:121-124 | `moddiv(7, 2, 17) == 12` |
| `Consts.SmallPrimesShape` | src/prime.rs:25 | the table starts with 2, index 1 holds 3, and every later entry is odd and at least 3 |
| `Rand.FromBytesBE` | src/rand.rs:18 | big-endian decoding of `k` bytes gives a value in `[0, 2^(8k))` |
| `Rand.FromToBytes` | src/rand.rs:18 | decoding the `k`-byte big-endian encoding of `v < 2^(8k)` gives `v` back |
| `Rand.ToFromBytes` | src/rand.rs:18 | encoding a decoded buffer into its own length gives the buffer back |
| `Rand.ShiftRightBound` | src/rand.rs:29 | shifting a value below `2^(a+b)` right by `a` gives a value below `2^b` |
| `Rand.SetBitSpec` | src/rand.rs:30 | `set_bit(k, true)` sets bit `k` and leaves the bits below and above it unchanged |
| `Rand.SetBitRange` | src/rand.rs:30 | setting bit `k` of a value below `2^(k+1)` gives a value in `[2^k, 2^(k+1))` |
| `Rand.SetBitZero` | src/prime.rs:9 | `set_bit(0, true)` makes the value odd and adds at most 1 |
| `Rand.ByteCounts` | src/rand.rs:15-26 | for `nbits >= 1`, `(nbits-1)/8 + 1 == nbits.div_ceil(8)`, and that many bytes hold between `nbits` and `nbits + 7` bits |
| `Rand.RandNBits` | src/rand.rs:10-19 | `nbits == 0` gives 0; otherwise the big-endian value of the buffer, below `2^(8 * nbytes)` |
| `Rand.RandNBitsUnmasked` | src/rand.rs:15-18 | `rand_nbits(1)` can return 255, which has more than one bit |
| `Rand.RandExactNBits` | src/rand.rs:21-32 | `nbits == 0` gives 0; otherwise a value in `[2^(nbits-1), 2^nbits)`, equal to `ExactBits(nbits, buf)` |
| `Rand.ExactBitsRange` | src/rand.rs:29-30 | decode, shift and set the top bit: the result has bit length exactly `nbits` |
| `Rand.ExactBitsLowBits` | src/rand.rs:29-30 | the result modulo `2^(nbits-1)` equals the shifted value modulo `2^(nbits-1)` |
| `Prime.TruncRem` | src/prime.rs:70 | the truncating remainder `n % d` is strictly between `-d` and `d` and has the sign of `n` |
| `Prime.TruncRemDivision` | src/prime.rs:70 | `n - n % d` is a multiple of `d` |
| `Prime.TruncRemZero` | src/prime.rs:61-70 | the truncating `%` of `try_div` is zero exactly when the `rem_euclid` of `is_prime` is |
| `Prime.TryDiv` | src/prime.rs:68-75 | `try_div(n)` is true iff no table entry divides `n` |
| `Prime.SmallPrimeHasSmallFactor` | src/prime.rs:59-75 | every table entry fails trial division, so `try_div` and `is_prime` are false on it |
| `Prime.HalfSmallPrime` | src/prime.rs:24-32 | the sieve is true iff some table entry after the first, `sp`, leaves the truncated remainder `sp >> 1` on `n` |
| `Prime.HalfRemainder` | src/prime.rs:26-27 | for odd `sp >= 3` and `q >= 0`, `q mod sp == sp >> 1` iff `sp` divides `2q + 1` |
| `Prime.SieveMeaning` | src/prime.rs:24-32 | for `q >= 0` the sieve fires iff an odd table entry divides `p = 2q + 1` |
| `Prime.SieveMissesNegatives` | src/prime.rs:27 | the sieve never fires on a negative `q` |
| `Prime.ModPowIsPow` | src/prime.rs:95 | `ModPow(b, e, m) == b^e mod m` |
| `Prime.TwoAdic` | src/prime.rs:82-91 | for `m != 0`, `m == 2^s * d` with `d` odd, and `d > 0` when `m > 0` |
| `Prime.TwoAdicUnique` | src/prime.rs:82-91 | that decomposition is unique |
| `Prime.Decompose` | src/prime.rs:83-91 | the halving loop ends with `m == 2^s * d` and `d` odd, namely `TwoAdic(m)` |
| `Prime.ModPowTwo` | src/prime.rs:106 | `x.modpow(2, n) == x*x mod n` |
| `Prime.SquareStep` | src/prime.rs:102-106 | squaring `x(r) = a^(2^r * d) mod n` modulo `n` gives `x(r+1)` |
| `Prime.MinusOneSquares` | src/prime.rs:105-114 | `(n-1)^2 mod n == 1`, so squaring `n - 1` ends the round with a pass |
| `Prime.OnesStayOnes` | src/prime.rs:187-193 | once `x(r) == 1`, every later `x(r')` is 1 |
| `Prime.RootFactors` | src/prime.rs:181 | `x^2 mod n == 1` means `n` divides `(x-1)(x+1)` |
| `Prime.PrimeBezout` | src/prime.rs:182-184 | for a prime `n` and `0 < y < n`, the cofactors of `ext_euclid(y, n)` combine `y` and `n` into 1 |
| `Prime.NontrivialRootComposite` | src/prime.rs:179-185 | a square root of 1 modulo `n` other than 1 and `n-1` proves `n` is not prime |
| `Prime.RejectionComposite` | src/prime.rs:104-111 | the inner-loop rejection (`x(r) == 1` while `x(r-1)` is neither 1 nor `n - 1`) proves `n` is not prime |
| `Prime.RoundFailsAt` | src/prime.rs:109-110 | a first 1 at step `r` without `n - 1` before it makes the round fail |
| `Prime.EarlyExitVerdict` | src/prime.rs:104-118 | for odd `n`, the round with the early exit passes iff `a^(n-1) == 1 (mod n)` and no squaring step turns a value other than 1 and `n-1` into 1 |
| `Prime.MillerRabin` | src/prime.rs:77-121 | over witnesses in `[2, n-2)`: true iff every round passes (`a^d == 1`, or `x(r) == n - 1` for some `r < s`, with `r == 0` always allowed), so `trial == 0` gives true |
| `Prime.IsPrime` | src/prime.rs:59-66 | true iff no table entry divides `n` and four Miller-Rabin rounds pass |
| `Prime.OddCandidateRange` | src/prime.rs:8-9 | `rand_exact_nbits(k)` with bit 0 set is odd and in `[2^(k-1), 2^k)` |
| `Prime.RandPrime` | src/prime.rs:6-18 | returns the first draw's candidate that passes `try_div` and five rounds; it is odd, has bit length `nbits` and has no small factor; `None` iff no draw is accepted |
| `Prime.PrimeAttempt` | src/prime.rs:8-16 | one pass of the loop: the candidate is `OddCandidate(nbits, bytes)`, and it is returned iff `try_div` and five Miller-Rabin rounds pass |
| `Prime.SafePrimeShape` | src/prime.rs:35-38 | `p = (q << 1) + 1` for odd `q` of bit length `nbits-1` has `p >> 1 == q` and bit length `nbits` |
| `Prime.SafeTrialFilters` | src/prime.rs:40-48 | true iff `try_div(q)`, the sieve does not fire on `q`, and `try_div(2q + 1)` |
| `Prime.SafeAttempt` | src/prime.rs:35-55 | one pass of the loop: `p == 2q + 1` for the draw's `q`, returned iff the three filters and both Miller-Rabin tests pass |
| `Prime.SafeAcceptedShape` | src/prime.rs:35-48 | an accepted draw yields `p` with odd `q = p >> 1`, `p = 2q + 1`, both free of small factors, `q` clear of the sieve, and bit length `nbits` when `nbits >= 2` |
| `Prime.RandSafePrime` | src/prime.rs:22-57 | returns `p = 2q + 1` for the first accepted draw: `q` odd, `try_div(q)`, not caught by the sieve, `try_div(p)`, both Miller-Rabin tests pass, and `p` has bit length `nbits` when `nbits >= 2`; `None` iff no draw is accepted |

## Left out

- Random sources (`OsRng`, `fill_bytes`, `gen_bigint_range`). The bytes and witnesses are parameters. The draws a generator can meet are the ones satisfying the byte-buffer length and witness-range conditions.
- Probabilities: the `4^-t` error bound of Miller-Rabin and the expected termination of the rejection loops are not statable here.
- The `loop` of `rand_prime` and `rand_safe_prime` runs until it succeeds. The model runs over a finite sequence of draws and returns `None` once they are exhausted.
- Miller-Rabin completeness for primes (every round passes when `n` is prime). It needs Fermat's little theorem, which the model does not prove.
- `aks` (src/prime.rs:123-128) is a stub that always returns false.
- The large test vectors of `test_miller_rabin` (the Mersenne number `2^1279 - 1` and the Arnault pseudoprime). They depend on random witnesses and are far too large to evaluate. `test_rand_prime` and `test_rand_safe_prime` only print.
- `src/main.rs` (timing, printing, an assertion) and `src/lib.rs` (module declarations).
- The crate's `consts` module is not part of this model. `small_primes()` is modelled as the primes below 100; only its shape (2 first, odd entries after it) is used.
- `Consts.SmallPrimesShape`: states the shape of the table, not that each entry is prime. Nothing that the code does depends on their primality.
- The rng plumbing. `rand_exact_nbits` takes no rng (src/rand.rs:21), but src/prime.rs:8 passes one. The model shares the arithmetic and ignores the rng argument.
- Non-terminating and panicking paths are excluded by preconditions.
  - `Prime.MillerRabin` requires `n != 1`: the halving loop never ends for `n - 1 == 0`.
  - `Prime.MillerRabin` requires the witness ranges: `gen_bigint_range` panics on an empty range, which forces `n >= 5` whenever a round runs.
  - `Prime.RandPrime` requires `nbits >= 2`: for `nbits <= 1` the candidate is 1 and `miller_rabin(1, 5)` never ends.
  - `Prime.RandSafePrime` requires `nbits >= 1`: `nbits - 1` underflows `usize` at src/prime.rs:35.
- Machine integer widths (`usize` bit counts, the `u64` counter `s`) are unbounded `nat` in the model.
- The error messages carried by `assert_throw!` are reduced to the two constructors `InvalidModulus` and `NoModularInverse`.

/** The table of small primes that trial division and the safe-prime sieve
    walk through (`small_primes()` of the crate's `consts` module). */
module Consts {

  /** The primes below 100, in increasing order. */
  const SmallPrimes: seq<int> := [2, 3, 5, 7, 11, 13, 17, 19, 23, 29, 31, 37, 41,
                                  43, 47, 53, 59, 61, 67, 71, 73, 79, 83, 89, 97]

  /** The shape the callers rely on: the table starts with 2, index 1 holds 3,
      and every entry after the first is odd. */
  lemma SmallPrimesShape()
    ensures |SmallPrimes| >= 2 && SmallPrimes[0] == 2 && SmallPrimes[1] == 3
    ensures forall i :: 1 <= i < |SmallPrimes| ==> SmallPrimes[i] >= 3 && SmallPrimes[i] % 2 == 1
  {
  }

  /** Every entry is between 2 and 100. */
  lemma SmallPrimesRange()
    ensures forall i :: 0 <= i < |SmallPrimes| ==> 2 <= SmallPrimes[i] < 100
  {
  }
}

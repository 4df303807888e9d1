/** Fixed-length random integers (`RandFixedLength` for `BigInt`). The bytes
    that `OsRng.fill_bytes` writes into the buffer are a parameter: what is
    modelled is the arithmetic that turns them into an integer. */
module Rand {
  import opened Arith

  type byte = x: int | 0 <= x < 256

  /** Unsigned big-endian decoding, as `BigInt::from_bytes_be(Sign::Plus, ..)`:
      a buffer of `k` bytes decodes to a value below `256^k`. */
  function FromBytesBE(buf: seq<byte>): (v: nat)
    ensures v < Pow2(8 * |buf|)
  {
    if |buf| == 0 then 0
    else
      var hi := FromBytesBE(buf[..|buf| - 1]);
      AppendByteBound(hi, buf[|buf| - 1], |buf| - 1);
      hi * 256 + buf[|buf| - 1]
  }

  /** Big-endian encoding of `v` into exactly `k` bytes, the inverse of
      `FromBytesBE`. */
  function ToBytesBE(v: nat, k: nat): (buf: seq<byte>)
    ensures |buf| == k
  {
    if k == 0 then [] else ToBytesBE(v / 256, k - 1) + [v % 256]
  }

  lemma AppendByteBound(hi: nat, b: byte, k: nat)
    requires hi < Pow2(8 * k)
    ensures hi * 256 + b < Pow2(8 * (k + 1))
  {
    Pow2Add(8 * k, 8);
    assert Pow2(8) == 256;
    assert hi * 256 + b < (hi + 1) * 256;
    assert (hi + 1) * 256 <= Pow2(8 * k) * 256;
  }

  /** Decoding an encoding gives the value back whenever it fits in `k` bytes. */
  lemma {:induction false} FromToBytes(v: nat, k: nat)
    requires v < Pow2(8 * k)
    ensures FromBytesBE(ToBytesBE(v, k)) == v
  {
    if k > 0 {
      Pow2Add(8 * (k - 1), 8);
      assert Pow2(8) == 256;
      ShiftBelow(v, 256, Pow2(8 * (k - 1)));
      FromToBytes(v / 256, k - 1);
      var buf := ToBytesBE(v, k);
      assert buf[..k - 1] == ToBytesBE(v / 256, k - 1);
    }
  }

  /** Encoding a decoded buffer gives the buffer back. */
  lemma {:induction false} ToFromBytes(buf: seq<byte>)
    ensures ToBytesBE(FromBytesBE(buf), |buf|) == buf
  {
    if |buf| > 0 {
      var k := |buf|;
      var hi := FromBytesBE(buf[..k - 1]);
      DivModUnique(hi * 256 + buf[k - 1], 256, hi, buf[k - 1]);
      ToFromBytes(buf[..k - 1]);
      assert buf == buf[..k - 1] + [buf[k - 1]];
    }
  }

  /** A value below `a * b` divided by `a` is below `b`. */
  lemma ShiftBelow(v: nat, a: nat, b: nat)
    requires a > 0 && v < a * b
    ensures v / a < b
  {
  }

  /** `v >> k` on a non-negative integer. */
  function ShiftRight(v: nat, k: nat): nat {
    DivNonNegative(v, Pow2(k));
    v / Pow2(k)
  }

  /** A right shift by `a` of a value below `2^(a+b)` is below `2^b`. */
  lemma ShiftRightBound(v: nat, a: nat, b: nat)
    requires v < Pow2(a + b)
    ensures ShiftRight(v, a) < Pow2(b)
  {
    Pow2Add(a, b);
    ShiftBelow(v, Pow2(a), Pow2(b));
  }

  /** `n.set_bit(k, true)` on a non-negative integer. */
  function SetBit(n: nat, k: nat): nat {
    if (n / Pow2(k)) % 2 == 1 then n else n + Pow2(k)
  }

  /** `n / (a*b) == (n / a) / b` for positive `a`, `b`. */
  lemma DivDiv(n: nat, a: nat, b: nat)
    requires a > 0 && b > 0
    ensures n / (a * b) == (n / a) / b
  {
    var q1, r1 := n / a, n % a;
    var q2, r2 := q1 / b, q1 % b;
    NestedDivision(n, a, b, q1, r1, q2, r2);
    DivModUnique(n, a * b, q2, a * r2 + r1);
  }

  lemma NestedDivision(n: int, a: int, b: int, q1: int, r1: int, q2: int, r2: int)
    requires a > 0 && b > 0
    requires n == a * q1 + r1 && 0 <= r1 < a
    requires q1 == b * q2 + r2 && 0 <= r2 < b
    ensures n == (a * b) * q2 + (a * r2 + r1)
    ensures 0 <= a * r2 + r1 < a * b
  {
    assert a * q1 == a * (b * q2) + a * r2;
    assert a * r2 <= a * (b - 1);
  }

  /** `set_bit(k, true)` sets bit `k` and leaves every other bit alone: the
      bits below `k` and the bits above `k` are unchanged. */
  lemma SetBitSpec(n: nat, k: nat)
    ensures (SetBit(n, k) / Pow2(k)) % 2 == 1
    ensures SetBit(n, k) % Pow2(k) == n % Pow2(k)
    ensures SetBit(n, k) / Pow2(k + 1) == n / Pow2(k + 1)
  {
    var p := Pow2(k);
    var q, r := n / p, n % p;
    var m := SetBit(n, k);
    var q' := if q % 2 == 1 then q else q + 1;
    assert m == p * q' + r;
    DivModUnique(m, p, q', r);
    assert Pow2(k + 1) == p * 2;
    DivDiv(m, p, 2);
    DivDiv(n, p, 2);
  }

  /** Setting bit `k` of a value below `2^(k+1)` gives a value of bit length
      exactly `k + 1`. */
  lemma SetBitRange(n: nat, k: nat)
    requires n < Pow2(k + 1)
    ensures Pow2(k) <= SetBit(n, k) < Pow2(k + 1)
  {
    var p := Pow2(k);
    assert Pow2(k + 1) == p * 2;
    ShiftBelow(n, p, 2);
    var q, r := n / p, n % p;
    assert n == p * q + r;
  }

  /** Setting bit 0 makes a value odd, adding 1 at most. */
  lemma SetBitZero(n: nat)
    ensures SetBit(n, 0) % 2 == 1
    ensures SetBit(n, 0) == if n % 2 == 1 then n else n + 1
  {
  }

  /** The buffer length of `rand_nbits`, `(nbits - 1) / 8 + 1`, and of
      `rand_exact_nbits`, `nbits.div_ceil(8)`, agree for every positive
      `nbits`, and both are the least number of bytes holding `nbits` bits. */
  lemma ByteCounts(nbits: nat)
    requires nbits >= 1
    ensures (nbits - 1) / 8 + 1 == (nbits + 7) / 8
    ensures nbits <= 8 * ((nbits + 7) / 8) < nbits + 8
  {
  }

  /** What `rand_exact_nbits(nbits)` computes from the bytes `buf` written
      into its buffer. */
  function ExactBits(nbits: nat, buf: seq<byte>): nat
    requires nbits > 0 ==> |buf| == (nbits + 7) / 8
  {
    if nbits == 0 then 0
    else SetBit(ShiftRight(FromBytesBE(buf), |buf| * 8 - nbits), nbits - 1)
  }

  /** A positive `nbits` yields a value of bit length exactly `nbits`. */
  lemma ExactBitsRange(nbits: nat, buf: seq<byte>)
    requires nbits > 0 && |buf| == (nbits + 7) / 8
    ensures Pow2(nbits - 1) <= ExactBits(nbits, buf) < Pow2(nbits)
  {
    var v := FromBytesBE(buf);
    ShiftRightBound(v, |buf| * 8 - nbits, nbits);
    SetBitRange(ShiftRight(v, |buf| * 8 - nbits), nbits - 1);
  }

  /** The bits below the forced top bit are the top bits of the buffer. */
  lemma ExactBitsLowBits(nbits: nat, buf: seq<byte>)
    requires nbits > 0 && |buf| == (nbits + 7) / 8
    ensures ExactBits(nbits, buf) % Pow2(nbits - 1)
         == ShiftRight(FromBytesBE(buf), |buf| * 8 - nbits) % Pow2(nbits - 1)
  {
    SetBitSpec(ShiftRight(FromBytesBE(buf), |buf| * 8 - nbits), nbits - 1);
  }

  /** `rand_nbits`: the bytes `fill` stand for what `fill_bytes` writes into
      the `(nbits - 1) / 8 + 1`-byte buffer. The value is the buffer read as
      an unsigned big-endian integer; it is not masked to `nbits` bits. */
  method RandNBits(nbits: nat, fill: seq<byte>) returns (n: nat)
    requires nbits > 0 ==> |fill| == (nbits - 1) / 8 + 1
    ensures nbits == 0 ==> n == 0
    ensures nbits > 0 ==> n == FromBytesBE(fill)
    ensures nbits > 0 ==> n < Pow2(8 * ((nbits - 1) / 8 + 1))
  {
    if nbits == 0 {
      return 0;
    }
    n := FromBytesBE(fill);
  }

  /** `rand_nbits(1)` can return 255: one byte is drawn for one bit and
      nothing clears the seven extra bits. */
  lemma RandNBitsUnmasked()
    ensures |[255 as byte]| == (1 - 1) / 8 + 1
    ensures FromBytesBE([255]) == 255 && FromBytesBE([255]) >= Pow2(1)
  {
    assert [255 as byte][..0] == [];
  }

  /** `rand_exact_nbits`: decode the `nbits.div_ceil(8)` bytes, shift out
      the surplus low bits and force bit `nbits - 1`. */
  method RandExactNBits(nbits: nat, fill: seq<byte>) returns (n: nat)
    requires nbits > 0 ==> |fill| == (nbits + 7) / 8
    ensures n == ExactBits(nbits, fill)
    ensures nbits == 0 ==> n == 0
    ensures nbits > 0 ==> Pow2(nbits - 1) <= n < Pow2(nbits)
  {
    if nbits == 0 {
      return 0;
    }
    var nbytes := (nbits + 7) / 8;
    n := ShiftRight(FromBytesBE(fill), nbytes * 8 - nbits);
    n := SetBit(n, nbits - 1);
    ExactBitsRange(nbits, fill);
  }
}

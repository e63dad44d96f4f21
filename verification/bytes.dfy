/** Machine-level vocabulary of the queue: bytes, `size_t`, and the 8-byte size header that is
    copied in front of every message as it lies in memory (least significant byte first). */
module Bytes {
  type byte = x: int | 0 <= x < 256

  const SIZE_LIMIT: int := 0x1_0000_0000_0000_0000

  // A local or field of this type is checked on every assignment, so every sum or difference
  // the queue stores is proved not to wrap around.
  type size_t = x: int | 0 <= x < SIZE_LIMIT

  // sizeof(size_t)
  const HEADER_BYTES: nat := 8

  function Pow256(k: nat): nat {
    if k == 0 then 1 else 256 * Pow256(k - 1)
  }

  /** The `k` low-order bytes of `n`, least significant first. */
  function ToBytes(n: nat, k: nat): (bs: seq<byte>)
    ensures |bs| == k
  {
    if k == 0 then [] else [n % 256] + ToBytes(n / 256, k - 1)
  }

  function FromBytes(bs: seq<byte>): (n: nat) {
    if bs == [] then 0 else bs[0] + 256 * FromBytes(bs[1..])
  }

  lemma {:induction false} BytesRoundTrip(n: nat, k: nat)
    requires n < Pow256(k)
    ensures FromBytes(ToBytes(n, k)) == n
  {
    if k > 0 {
      BytesRoundTrip(n / 256, k - 1);
      assert ToBytes(n, k)[1..] == ToBytes(n / 256, k - 1);
    }
  }

  lemma {:induction false} BytesRoundTripBack(bs: seq<byte>)
    ensures ToBytes(FromBytes(bs), |bs|) == bs
  {
    if bs != [] {
      BytesRoundTripBack(bs[1..]);
      assert FromBytes(bs) % 256 == bs[0] && FromBytes(bs) / 256 == FromBytes(bs[1..]);
    }
  }

  lemma SmallMultiple(e: int, d: int)
    requires -d < e * d < d
    ensures e == 0
  {
    assert e >= 1 ==> (e - 1) * d >= 0;
    assert e <= -1 ==> (e + 1) * d <= 0;
  }

  lemma DivisionIsUnique(n: nat, d: nat, q: nat, r: nat)
    requires n == q * d + r && r < d
    ensures n / d == q
  {
    assert (n / d - q) * d == r - n % d;
    SmallMultiple(n / d - q, d);
  }

  lemma DivideTwice(n: nat, b: nat)
    requires b > 0
    ensures n / 256 / b == n / (256 * b)
  {
    var q, high, low := n / 256 / b, n / 256 % b, n % 256;
    assert n / 256 == q * b + high;
    assert q * (256 * b) == 256 * (q * b);
    DivisionIsUnique(n, 256 * b, q, 256 * high + low);
  }

  /** The bytes are the digits of `n` to the base 256, the least significant at the lowest
      address. */
  lemma {:induction false} BytesAreDigits(n: nat, k: nat, i: nat)
    requires i < k
    ensures Pow256(i) > 0 && ToBytes(n, k)[i] == n / Pow256(i) % 256
    decreases k
  {
    if i > 0 {
      BytesAreDigits(n / 256, k - 1, i - 1);
      DivideTwice(n, Pow256(i - 1));
    }
  }

  /** A size header read back from the buffer is the size that was written. */
  lemma HeaderRoundTrip(n: size_t)
    ensures FromBytes(ToBytes(n, HEADER_BYTES)) == n
  {
    assert Pow256(8) == SIZE_LIMIT;
    BytesRoundTrip(n, HEADER_BYTES);
  }
}

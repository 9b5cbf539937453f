/** Fixed-width unsigned integers of the C++ code, as subsets of `int`, and the
    network-byte-order (big-endian) layout used for multi-byte CBOR arguments. */
module BoundedInts {

  const TWO_TO_THE_8: int := 0x100
  const TWO_TO_THE_32: int := 0x1_0000_0000
  const TWO_TO_THE_63: int := 0x8000_0000_0000_0000
  const TWO_TO_THE_64: int := 0x1_0000_0000_0000_0000

  const INT64_MIN: int := -0x8000_0000_0000_0000
  const INT64_MAX: int := 0x7FFF_FFFF_FFFF_FFFF

  type uint8 = x: int | 0 <= x < 0x100
  type uint32 = x: int | 0 <= x < 0x1_0000_0000
  type uint64 = x: int | 0 <= x < 0x1_0000_0000_0000_0000

  /** The `int64_t` that 64-bit two's-complement arithmetic leaves of `n`:
      the one value in range congruent to `n` modulo 2^64. A `uint64_t` cast
      to `int64_t`, and a sum or product that overflows, land there. */
  function Int64Of(n: int): (r: int)
    ensures INT64_MIN <= r <= INT64_MAX
    ensures (r - n) % TWO_TO_THE_64 == 0
    ensures INT64_MIN <= n <= INT64_MAX ==> r == n
  {
    (n - INT64_MIN) % TWO_TO_THE_64 + INT64_MIN
  }

  /** Numbers congruent modulo 2^64 leave the same `int64_t`. */
  lemma Int64OfCongruent(x: int, y: int)
    requires (x - y) % TWO_TO_THE_64 == 0
    ensures Int64Of(x) == Int64Of(y)
  {
    var rx, ry := Int64Of(x), Int64Of(y);
    var d := (rx - x) + (x - y) + (y - ry);
    assert d == TWO_TO_THE_64 * ((rx - x) / TWO_TO_THE_64 + (x - y) / TWO_TO_THE_64 - (ry - y) / TWO_TO_THE_64);
    assert rx - ry == d;
  }

  /** A 64-bit sum of two wrapped values wraps to what the exact sum wraps
      to: overflow in the operands and in the sum come to the same thing. */
  lemma Int64OfAdd(a: int, b: int)
    ensures Int64Of(Int64Of(a) + Int64Of(b)) == Int64Of(a + b)
  {
    var ra, rb := Int64Of(a), Int64Of(b);
    assert ra + rb - (a + b) == TWO_TO_THE_64 * ((ra - a) / TWO_TO_THE_64 + (rb - b) / TWO_TO_THE_64);
    Int64OfCongruent(ra + rb, a + b);
  }

  /** 256 to the power `n`: the number of values `n` bytes can hold. */
  function Pow256(n: nat): (r: nat)
    ensures r >= 1
  {
    if n == 0 then 1 else 256 * Pow256(n - 1)
  }

  /** The low `n` bytes of `v`, most significant first (what `WriteHtonU16/32/64` emit). */
  function ToBigEndian(v: nat, n: nat): (r: seq<uint8>)
    ensures |r| == n
  {
    if n == 0 then [] else ToBigEndian(v / 256, n - 1) + [(v % 256) as uint8]
  }

  /** The number a big-endian byte sequence denotes (what `ReadNtohU16/32/64` return). */
  function FromBigEndian(s: seq<uint8>): (r: nat)
    ensures r < Pow256(|s|)
  {
    if |s| == 0 then 0 else FromBigEndian(s[..|s| - 1]) * 256 + s[|s| - 1]
  }

  lemma DropLast(a: seq<uint8>, x: uint8)
    ensures (a + [x])[..|a|] == a && (a + [x])[|a|] == x
  {
    assert (a + [x])[..|a|] == a;
  }

  lemma {:induction false} BigEndianRoundTrip(v: nat, n: nat)
    requires v < Pow256(n)
    ensures FromBigEndian(ToBigEndian(v, n)) == v
  {
    if n > 0 {
      var s := ToBigEndian(v, n);
      DropLast(ToBigEndian(v / 256, n - 1), (v % 256) as uint8);
      assert v / 256 < Pow256(n - 1);
      BigEndianRoundTrip(v / 256, n - 1);
    }
  }
}

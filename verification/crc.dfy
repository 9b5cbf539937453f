/** Block checksums of `crc.cc`: a CRC-16 and a CRC-32 computed bit by bit, the
    big-endian byte form in which blocks carry them, and verification.

    The CRC-32 is documented as CRC-32C (Castagnoli), the checksum section 4.2.1
    of RFC 9171 prescribes, but its right-shifting loop is fed the polynomial in
    normal (unreflected) form, so it computes a different checksum. That code is
    `CalculateCRC32AsWritten`, and every block checksum uses it, as the code
    does; `CalculateCRC32` is the CRC-32C the code documents, kept beside it.
    Module `CrcCheckValues` runs both, and the CRC-16, on the check input. */
module Crc {
  import opened BoundedInts
  import opened BlockTypeCodes

  const CRC16_POLYNOMIAL: bv16 := 0x1021
  /** x^32 + x^28 + x^27 + x^26 + x^25 + x^23 + x^22 + x^20 + x^19 + x^18 +
      x^14 + x^13 + x^11 + x^10 + x^9 + x^8 + x^6 + 1, highest term first. */
  const CASTAGNOLI_NORMAL: bv32 := 0x1EDC6F41
  /** The same polynomial bit-reversed, as a right-shifting loop needs it. */
  const CASTAGNOLI_REFLECTED: bv32 := 0x82F63B78

  /** One step of the CRC-16 loop: shift left, folding in the polynomial when
      the top bit falls out. */
  function Crc16Shift(crc: bv16): bv16 {
    if crc & 0x8000 != 0 then (crc << 1) ^ CRC16_POLYNOMIAL else crc << 1
  }

  /** One byte: XOR it into the high half, then eight shift steps. */
  function Crc16Byte(crc: bv16, b: uint8): bv16 {
    var c := crc ^ ((b as bv16) << 8);
    Crc16Shift(Crc16Shift(Crc16Shift(Crc16Shift(Crc16Shift(Crc16Shift(Crc16Shift(Crc16Shift(c))))))))
  }

  /** The register after the loop has consumed `data[i..]`, starting from `crc`. */
  function Crc16Over(crc: bv16, data: seq<uint8>, i: nat): bv16
    requires i <= |data|
    decreases |data| - i
  {
    if i == |data| then crc else Crc16Over(Crc16Byte(crc, data[i]), data, i + 1)
  }

  /** `CalculateCRC16`: initial value 0xFFFF, no final XOR. */
  function CalculateCRC16(data: seq<uint8>): bv16 {
    Crc16Over(0xFFFF, data, 0)
  }

  /** One step of a right-shifting CRC-32 loop with the given polynomial
      constant: shift right, folding in the polynomial when the low bit falls out. */
  function Crc32Shift(poly: bv32, crc: bv32): bv32 {
    if crc & 1 != 0 then (crc >> 1) ^ poly else crc >> 1
  }

  /** One byte: XOR it into the low byte, then eight shift steps. */
  function Crc32Byte(poly: bv32, crc: bv32, b: uint8): bv32 {
    var c := crc ^ (b as bv32);
    Crc32Shift(poly, Crc32Shift(poly, Crc32Shift(poly, Crc32Shift(poly,
      Crc32Shift(poly, Crc32Shift(poly, Crc32Shift(poly, Crc32Shift(poly, c))))))))
  }

  function Crc32Over(poly: bv32, crc: bv32, data: seq<uint8>, i: nat): bv32
    requires i <= |data|
    decreases |data| - i
  {
    if i == |data| then crc else Crc32Over(poly, Crc32Byte(poly, crc, data[i]), data, i + 1)
  }

  /** `CalculateCRC32` exactly as written: initial value 0xFFFFFFFF, the
      normal-form polynomial in a right-shifting loop, result complemented. */
  function CalculateCRC32AsWritten(data: seq<uint8>): bv32 {
    !Crc32Over(CASTAGNOLI_NORMAL, 0xFFFF_FFFF, data, 0)
  }

  /** CRC-32C as documented: the same loop with the reflected polynomial. */
  function CalculateCRC32(data: seq<uint8>): bv32 {
    !Crc32Over(CASTAGNOLI_REFLECTED, 0xFFFF_FFFF, data, 0)
  }

  /** The four shifted-and-masked bytes written for a CRC-32 are its
      big-endian layout. */
  lemma BigEndianFour(c: nat)
    ensures ToBigEndian(c, 4)
         == [(c / 0x100_0000) % 0x100, (c / 0x1_0000) % 0x100, (c / 0x100) % 0x100, c % 0x100]
  {
    var c1, c2, c3 := c / 256, c / 256 / 256, c / 256 / 256 / 256;
    assert c2 == c / 0x1_0000;
    assert c3 == c / 0x100_0000;
    assert ToBigEndian(c3, 1) == [c3 % 256];
    assert ToBigEndian(c2, 2) == [c3 % 256, c2 % 256];
    assert ToBigEndian(c1, 3) == [c3 % 256, c2 % 256, c1 % 256];
  }

  /** `CalculateCRC`: the checksum of the given type as big-endian bytes, two
      for CRC-16 and four for CRC-32; no bytes for NO_CRC and for any other
      code (a cast can put one in a block). */
  function CalculateCRC(crcType: uint64, data: seq<uint8>): (r: seq<uint8>)
    ensures crcType == CRC_16 ==> r == ToBigEndian(CalculateCRC16(data) as int, 2)
    ensures crcType == CRC_32 ==> r == ToBigEndian(CalculateCRC32AsWritten(data) as int, 4)
    ensures crcType != CRC_16 && crcType != CRC_32 ==> r == []
  {
    if crcType == CRC_16 then
      var c := CalculateCRC16(data) as int;
      [(c / 0x100) % 0x100, c % 0x100]
    else if crcType == CRC_32 then
      var c := CalculateCRC32AsWritten(data) as int;
      BigEndianFour(c);
      [(c / 0x100_0000) % 0x100, (c / 0x1_0000) % 0x100, (c / 0x100) % 0x100, c % 0x100]
    else []
  }

  /** `VerifyCRC`: NO_CRC always passes; otherwise the stored bytes must equal
      the recomputed ones in length and in every position. */
  function VerifyCRC(crcType: uint64, data: seq<uint8>, crc: seq<uint8>): (ok: bool)
    ensures ok <==> crcType == NO_CRC || crc == CalculateCRC(crcType, data)
  {
    if crcType == NO_CRC then true
    else
      var calculated := CalculateCRC(crcType, data);
      |calculated| == |crc| && forall i :: 0 <= i < |crc| ==> calculated[i] == crc[i]
  }

  /** A checksum computed for some data always verifies against that data. */
  lemma CalculatedVerifies(crcType: uint64, data: seq<uint8>)
    ensures VerifyCRC(crcType, data, CalculateCRC(crcType, data))
  {
  }

  /** Once the loop has consumed all of `a`, it continues on `b` alone. */
  lemma {:induction false} Crc16OverSuffix(crc: bv16, a: seq<uint8>, b: seq<uint8>, j: nat)
    requires j <= |b|
    ensures Crc16Over(crc, a + b, |a| + j) == Crc16Over(crc, b, j)
    decreases |b| - j
  {
    if j < |b| {
      assert (a + b)[|a| + j] == b[j];
      Crc16OverSuffix(Crc16Byte(crc, b[j]), a, b, j + 1);
    }
  }

  /** The CRC-16 register is a fold over the data: feeding `a + b` is feeding
      `a` and then `b`, so the checksum can be computed piecewise. */
  lemma {:induction false} Crc16OverConcat(crc: bv16, a: seq<uint8>, b: seq<uint8>, i: nat)
    requires i <= |a|
    ensures Crc16Over(crc, a + b, i) == Crc16Over(Crc16Over(crc, a, i), b, 0)
    decreases |a| - i
  {
    if i < |a| {
      assert (a + b)[i] == a[i];
      Crc16OverConcat(Crc16Byte(crc, a[i]), a, b, i + 1);
    } else {
      Crc16OverSuffix(crc, a, b, 0);
    }
  }

  lemma {:induction false} Crc32OverSuffix(poly: bv32, crc: bv32, a: seq<uint8>, b: seq<uint8>, j: nat)
    requires j <= |b|
    ensures Crc32Over(poly, crc, a + b, |a| + j) == Crc32Over(poly, crc, b, j)
    decreases |b| - j
  {
    if j < |b| {
      assert (a + b)[|a| + j] == b[j];
      Crc32OverSuffix(poly, Crc32Byte(poly, crc, b[j]), a, b, j + 1);
    }
  }

  /** The same fold property for the CRC-32 register. */
  lemma {:induction false} Crc32OverConcat(poly: bv32, crc: bv32, a: seq<uint8>, b: seq<uint8>, i: nat)
    requires i <= |a|
    ensures Crc32Over(poly, crc, a + b, i) == Crc32Over(poly, Crc32Over(poly, crc, a, i), b, 0)
    decreases |a| - i
  {
    if i < |a| {
      assert (a + b)[i] == a[i];
      Crc32OverConcat(poly, Crc32Byte(poly, crc, a[i]), a, b, i + 1);
    } else {
      Crc32OverSuffix(poly, crc, a, b, 0);
    }
  }
}

/** Block type and CRC type codes of RFC 9171 (`block-type-codes.h`) and their
    names (`block-type-codes.cc`). */
module BlockTypeCodes {
  import opened BoundedInts
  import opened Strings

  /** `BlockType`: the canonical block types the model interprets. */
  const PAYLOAD_BLOCK: uint64 := 1
  const PREVIOUS_NODE_BLOCK: uint64 := 6
  const BUNDLE_AGE_BLOCK: uint64 := 7
  const HOP_COUNT_BLOCK: uint64 := 10

  /** `CRCType`. */
  const NO_CRC: uint64 := 0
  const CRC_16: uint64 := 1
  const CRC_32: uint64 := 2

  predicate IsKnownBlockType(t: uint64) {
    t == PAYLOAD_BLOCK || t == PREVIOUS_NODE_BLOCK || t == BUNDLE_AGE_BLOCK || t == HOP_COUNT_BLOCK
  }

  predicate IsKnownCrcType(t: uint64) {
    t == NO_CRC || t == CRC_16 || t == CRC_32
  }

  /** `BlockTypeToString`. */
  function BlockTypeToString(t: uint64): string {
    if t == PAYLOAD_BLOCK then "PayloadBlock"
    else if t == PREVIOUS_NODE_BLOCK then "PreviousNodeBlock"
    else if t == BUNDLE_AGE_BLOCK then "BundleAgeBlock"
    else if t == HOP_COUNT_BLOCK then "HopCountBlock"
    else "UnknownBlock_" + DecimalString(t)
  }

  /** `BlockTypeFromString`: the four names map back to their types; every
      other string falls back to the payload type. */
  function BlockTypeFromString(s: string): (t: uint64)
    ensures IsKnownBlockType(t)
    ensures t != PAYLOAD_BLOCK ==> s == BlockTypeToString(t)
  {
    if s == "PayloadBlock" then PAYLOAD_BLOCK
    else if s == "PreviousNodeBlock" then PREVIOUS_NODE_BLOCK
    else if s == "BundleAgeBlock" then BUNDLE_AGE_BLOCK
    else if s == "HopCountBlock" then HOP_COUNT_BLOCK
    else PAYLOAD_BLOCK
  }

  /** Names round-trip exactly for the known block types, and only for them:
      an unknown type comes back as the payload type. */
  lemma BlockTypeNameRoundTrip(t: uint64)
    ensures BlockTypeFromString(BlockTypeToString(t)) == t <==> IsKnownBlockType(t)
    ensures !IsKnownBlockType(t) ==> BlockTypeFromString(BlockTypeToString(t)) == PAYLOAD_BLOCK
  {
    if !IsKnownBlockType(t) {
      var s := BlockTypeToString(t);
      assert s[0] == 'U';
    }
  }

  /** Every block type, known or not, has its own name. */
  lemma BlockTypeToStringInjective(t: uint64, u: uint64)
    ensures BlockTypeToString(t) == BlockTypeToString(u) ==> t == u
  {
    var s, r := BlockTypeToString(t), BlockTypeToString(u);
    if !IsKnownBlockType(t) {
      assert s[0] == 'U';
    }
    if !IsKnownBlockType(u) {
      assert r[0] == 'U';
    }
    if s == r && !IsKnownBlockType(t) && !IsKnownBlockType(u) {
      var prefix := "UnknownBlock_";
      assert s[|prefix|..] == DecimalString(t);
      assert r[|prefix|..] == DecimalString(u);
      DecimalStringInjective(t, u);
    }
  }

  /** `CRCTypeToString`. */
  function CrcTypeToString(t: uint64): string {
    if t == NO_CRC then "NoCRC"
    else if t == CRC_16 then "CRC16"
    else if t == CRC_32 then "CRC32"
    else "UnknownCRC_" + DecimalString(t)
  }

  /** `CRCTypeFromString`: unknown names fall back to "no CRC". */
  function CrcTypeFromString(s: string): (t: uint64)
    ensures IsKnownCrcType(t)
    ensures t != NO_CRC ==> s == CrcTypeToString(t)
  {
    if s == "NoCRC" then NO_CRC
    else if s == "CRC16" then CRC_16
    else if s == "CRC32" then CRC_32
    else NO_CRC
  }

  lemma CrcTypeNameRoundTrip(t: uint64)
    ensures CrcTypeFromString(CrcTypeToString(t)) == t <==> IsKnownCrcType(t)
    ensures !IsKnownCrcType(t) ==> CrcTypeFromString(CrcTypeToString(t)) == NO_CRC
  {
    if !IsKnownCrcType(t) {
      var s := CrcTypeToString(t);
      assert s[0] == 'U';
    }
  }
}

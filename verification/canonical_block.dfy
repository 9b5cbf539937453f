/** Canonical blocks (`canonical-block.cc`, section 4.3.2 of RFC 9171): the
    block fields, block processing control flags, the CBOR array layout, the
    CRC, and the typed extension blocks of section 4.4 of RFC 9171 whose
    values live CBOR-encoded in the block-type-specific data. */
module CanonicalBlock {
  import opened Wrappers
  import opened BoundedInts
  import opened BlockTypeCodes
  import Flags
  import Cbor
  import Crc
  import Endpoint

  /** `BlockControlFlags`: one bit each. */
  const BLOCK_MUST_BE_REPLICATED: bv64 := 0x01
  const REPORT_BLOCK_IF_UNPROCESSABLE: bv64 := 0x02
  const DELETE_BUNDLE_IF_BLOCK_UNPROCESSABLE: bv64 := 0x04
  const REMOVE_BLOCK_IF_UNPROCESSABLE: bv64 := 0x08
  const STATUS_REPORT_REQUESTED: bv64 := 0x10

  /** The C++ class of a block object: the base class or one of the typed
      subclasses. It matters where the code casts a block to its subclass. */
  datatype Kind = Generic | Payload | PreviousNode | BundleAge | HopCount

  /** `CanonicalBlock`. */
  datatype CanonicalBlock = CanonicalBlock(
    kind: Kind,
    blockType: uint64,
    number: uint64,
    flags: bv64,
    crcType: uint64,
    data: seq<uint8>,
    crc: seq<uint8>)

  /** The class `CreateBlock` picks for a block type. */
  function KindOf(blockType: uint64): Kind {
    if blockType == PAYLOAD_BLOCK then Payload
    else if blockType == PREVIOUS_NODE_BLOCK then PreviousNode
    else if blockType == BUNDLE_AGE_BLOCK then BundleAge
    else if blockType == HOP_COUNT_BLOCK then HopCount
    else Generic
  }

  /** `CreateBlock`: a block of the class matching its type, holding exactly
      the given fields and no CRC value. */
  function CreateBlock(blockType: uint64, number: uint64, flags: bv64, crcType: uint64, data: seq<uint8>): (b: CanonicalBlock)
    ensures b.blockType == blockType && b.number == number && b.flags == flags
    ensures b.crcType == crcType && b.data == data && b.crc == []
    ensures b.kind == Payload <==> blockType == PAYLOAD_BLOCK
    ensures b.kind == PreviousNode <==> blockType == PREVIOUS_NODE_BLOCK
    ensures b.kind == BundleAge <==> blockType == BUNDLE_AGE_BLOCK
    ensures b.kind == HopCount <==> blockType == HOP_COUNT_BLOCK
    ensures b.kind == Generic <==> !IsKnownBlockType(blockType)
  {
    CanonicalBlock(KindOf(blockType), blockType, number, flags, crcType, data, [])
  }

  // Flags

  /** The flag getters (`MustBeReplicated`, `ReportIfUnprocessable`, ...). */
  predicate HasFlag(b: CanonicalBlock, flag: bv64) {
    Flags.Has(b.flags, flag)
  }

  predicate MustBeReplicated(b: CanonicalBlock) {
    HasFlag(b, BLOCK_MUST_BE_REPLICATED)
  }

  /** The flag setters: the flag is set or cleared, every other bit and
      every other field stays. */
  function SetFlag(b: CanonicalBlock, flag: bv64, enable: bool): (r: CanonicalBlock)
    requires flag != 0
    ensures HasFlag(r, flag) == enable
    ensures r == b.(flags := r.flags)
    ensures forall other: bv64 {:trigger HasFlag(r, other)} :: flag & other == 0 ==> HasFlag(r, other) == HasFlag(b, other)
  {
    Flags.SetDecidesItsFlag(b.flags, flag, enable);
    forall other: bv64 | flag & other == 0
      ensures Flags.Has(Flags.Set(b.flags, flag, enable), other) == Flags.Has(b.flags, other)
    {
      Flags.SetKeepsOtherFlags(b.flags, flag, enable, other);
    }
    b.(flags := Flags.Set(b.flags, flag, enable))
  }

  // CBOR layout

  /** `ToCbor`, as a CBOR value: [type, number, flags, CRC type, data], and
      the CRC value when there is a CRC type and a computed value. */
  function ToCborValue(b: CanonicalBlock): (v: Cbor.CborValue)
    ensures v.Array?
  {
    Cbor.Array([Cbor.Unsigned(b.blockType), Cbor.Unsigned(b.number), Cbor.Unsigned(Flags.ToUint64(b.flags)),
                Cbor.Unsigned(b.crcType), Cbor.Bytes(b.data)]
                + (if b.crcType != NO_CRC && |b.crc| > 0 then [Cbor.Bytes(b.crc)] else []))
  }

  function ToCbor(b: CanonicalBlock): seq<uint8> {
    Cbor.Encode(ToCborValue(b))
  }

  /** `FromCbor`, on a decoded value: at least five elements with a byte
      string as data; with a CRC type, a sixth element holding a byte
      string. Scalars that are not unsigned integers read as 0. */
  function FromCborValue(v: Cbor.CborValue): (r: Option<CanonicalBlock>)
    ensures !v.Array? || |v.items| < 5 ==> r.None?
    ensures v.Array? && |v.items| >= 5 && !v.items[4].Bytes? ==> r.None?
    ensures r.Some? ==> v.items[4] == Cbor.Bytes(r.value.data) && r.value.kind == KindOf(r.value.blockType)
    ensures r.Some? && r.value.crcType != NO_CRC ==> |v.items| > 5 && v.items[5] == Cbor.Bytes(r.value.crc)
    ensures r.Some? && r.value.crcType == NO_CRC ==> r.value.crc == []
  {
    if !v.Array? || |v.items| < 5 then None
    else
      var a := v.items;
      var crcType := Cbor.GetUnsignedInteger(a[3]);
      if !a[4].Bytes? then None
      else if crcType != NO_CRC && (|a| <= 5 || !a[5].Bytes?) then None
      else
        var b := CreateBlock(Cbor.GetUnsignedInteger(a[0]), Cbor.GetUnsignedInteger(a[1]),
                             Flags.FromUint64(Cbor.GetUnsignedInteger(a[2])), crcType, a[4].bytes);
        Some(if crcType != NO_CRC then b.(crc := a[5].bytes) else b)
  }

  function FromCbor(buffer: seq<uint8>): Option<CanonicalBlock> {
    match Cbor.Decode(buffer)
    case None => None
    case Some(v) => FromCborValue(v)
  }

  // Round trip

  /** What the encoding of a block carries: its class follows from its type
      again, and a block without a CRC type has no CRC value. */
  function Carried(b: CanonicalBlock): CanonicalBlock {
    b.(kind := KindOf(b.blockType), crc := if b.crcType != NO_CRC then b.crc else [])
  }

  /** Reading back the array of a block gives every field it carries; a
      block with a CRC type but no computed value is refused. */
  lemma CborValueRoundTrip(b: CanonicalBlock)
    ensures b.crcType != NO_CRC && b.crc == [] ==> FromCborValue(ToCborValue(b)) == None
    ensures b.crcType == NO_CRC || b.crc != [] ==> FromCborValue(ToCborValue(b)) == Some(Carried(b))
  {
    var a := ToCborValue(b).items;
    assert Flags.FromUint64(Cbor.GetUnsignedInteger(a[2])) == b.flags;
  }

  /** Every field of a block whose class matches its type and whose CRC
      value is present exactly when it has a CRC type survives. */
  predicate Encodable(b: CanonicalBlock) {
    b.kind == KindOf(b.blockType) && (b.crcType == NO_CRC <==> b.crc == [])
  }

  /** Data and CRC values of `size_t` length. */
  predicate Representable(b: CanonicalBlock) {
    |b.data| < TWO_TO_THE_64 && |b.crc| < TWO_TO_THE_64
  }

  lemma ToCborValueWellFormed(b: CanonicalBlock)
    requires Representable(b)
    ensures Cbor.WellFormed(ToCborValue(b))
  {
  }

  /** `FromCbor(ToCbor(b))` gives back every encodable block. */
  lemma CborRoundTrip(b: CanonicalBlock)
    requires Encodable(b) && Representable(b)
    ensures FromCbor(ToCbor(b)) == Some(b)
  {
    ToCborValueWellFormed(b);
    Cbor.DecodeOfEncode(ToCborValue(b));
    CborValueRoundTrip(b);
  }

  // CRC

  /** The bytes the CRC covers: the encoding without the CRC field. */
  function CrcInput(b: CanonicalBlock): seq<uint8> {
    ToCbor(b.(crc := []))
  }

  /** `CalculateCRC`: no CRC type clears the value; otherwise the value is
      the CRC of the block without it. Nothing else changes. */
  function CalculateCRC(b: CanonicalBlock): (r: CanonicalBlock)
    ensures r == b.(crc := r.crc)
    ensures b.crcType == CRC_16 ==> |r.crc| == 2
    ensures b.crcType == CRC_32 ==> |r.crc| == 4
    ensures b.crcType != CRC_16 && b.crcType != CRC_32 ==> r.crc == []
    ensures CheckCRC(r)
  {
    var r := if b.crcType == NO_CRC then b.(crc := []) else b.(crc := Crc.CalculateCRC(b.crcType, CrcInput(b)));
    assert r.(crc := []) == b.(crc := []);
    Crc.CalculatedVerifies(b.crcType, CrcInput(b));
    r
  }

  /** `CheckCRC`: true without a CRC type; otherwise the stored value must be
      the CRC of the block without it. */
  predicate CheckCRC(b: CanonicalBlock) {
    b.crcType == NO_CRC || Crc.VerifyCRC(b.crcType, CrcInput(b), b.crc)
  }

  lemma CheckCRCMeansCalculated(b: CanonicalBlock)
    ensures CheckCRC(b) <==> b.crcType == NO_CRC || b == CalculateCRC(b)
  {
  }

  // Payload block

  /** `PayloadBlock(payload)`: block number 1, no flags, no CRC. */
  function NewPayloadBlock(payload: seq<uint8>): (b: CanonicalBlock)
    ensures b.kind == Payload && b.blockType == PAYLOAD_BLOCK && b.number == 1
    ensures GetPayload(b) == payload
  {
    CreateBlock(PAYLOAD_BLOCK, 1, 0, NO_CRC, payload)
  }

  /** `PayloadBlock::GetPayload`: the block data. */
  function GetPayload(b: CanonicalBlock): seq<uint8> {
    b.data
  }

  // Previous node block

  /** `PreviousNodeBlock::GetPreviousNode`: the endpoint the data encodes, or
      "dtn:none" when it does not decode. */
  function GetPreviousNode(b: CanonicalBlock): (e: Endpoint.EndpointId)
    ensures Endpoint.WellFormed(e)
    ensures Endpoint.FromCbor(b.data).None? ==> e == Endpoint.DTN_NONE
  {
    match Endpoint.FromCbor(b.data)
    case Some(e) => e
    case None => Endpoint.Make("dtn:none")
  }

  /** `PreviousNodeBlock::SetPreviousNode`: the data becomes the endpoint's
      encoding. */
  function SetPreviousNode(b: CanonicalBlock, e: Endpoint.EndpointId): (r: CanonicalBlock)
    ensures r == b.(data := r.data)
  {
    b.(data := Endpoint.ToCbor(e))
  }

  /** The previous node reads back as it was set. */
  lemma PreviousNodeRoundTrip(b: CanonicalBlock, e: Endpoint.EndpointId)
    requires Endpoint.WellFormed(e) && Endpoint.IsCppString(e.uri)
    ensures GetPreviousNode(SetPreviousNode(b, e)) == e
  {
    Endpoint.CborRoundTrip(e);
  }

  /** `PreviousNodeBlock(previousNode)`: block number 2, no flags, no CRC. */
  function NewPreviousNodeBlock(e: Endpoint.EndpointId): (b: CanonicalBlock)
    requires Endpoint.WellFormed(e) && Endpoint.IsCppString(e.uri)
    ensures b.kind == PreviousNode && b.blockType == PREVIOUS_NODE_BLOCK && b.number == 2
    ensures b.flags == 0 && b.crcType == NO_CRC
    ensures GetPreviousNode(b) == e && b.data == Endpoint.ToCbor(e)
  {
    var b := SetPreviousNode(CreateBlock(PREVIOUS_NODE_BLOCK, 2, 0, NO_CRC, []), e);
    PreviousNodeRoundTrip(CreateBlock(PREVIOUS_NODE_BLOCK, 2, 0, NO_CRC, []), e);
    b
  }

  // Bundle age block

  /** `BundleAgeBlock::GetAge`: the unsigned integer the data encodes, in
      microseconds; 0 for empty data or anything else. */
  function GetAge(b: CanonicalBlock): (age: uint64)
    ensures b.data == [] ==> age == 0
  {
    if b.data == [] then 0
    else match Cbor.Decode(b.data)
      case Some(v) => if v.Unsigned? then v.u else 0
      case None => 0
  }

  /** `BundleAgeBlock::SetAge`: the data becomes the encoded age. */
  function SetAge(b: CanonicalBlock, microseconds: uint64): (r: CanonicalBlock)
    ensures r == b.(data := r.data)
  {
    b.(data := Cbor.Encode(Cbor.Unsigned(microseconds)))
  }

  lemma AgeRoundTrip(b: CanonicalBlock, microseconds: uint64)
    ensures GetAge(SetAge(b, microseconds)) == microseconds
  {
    Cbor.DecodeOfEncode(Cbor.Unsigned(microseconds));
  }

  /** `BundleAgeBlock(microseconds)`: block number 3, no flags, no CRC. */
  function NewBundleAgeBlock(microseconds: uint64): (b: CanonicalBlock)
    ensures b.kind == BundleAge && b.blockType == BUNDLE_AGE_BLOCK && b.number == 3
    ensures GetAge(b) == microseconds
  {
    AgeRoundTrip(CreateBlock(BUNDLE_AGE_BLOCK, 3, 0, NO_CRC, []), microseconds);
    SetAge(CreateBlock(BUNDLE_AGE_BLOCK, 3, 0, NO_CRC, []), microseconds)
  }

  // Hop count block

  /** The [limit, count] pair the data encodes, if it decodes to an array of
      at least two elements. */
  function HopCountPair(b: CanonicalBlock): Option<seq<Cbor.CborValue>> {
    if b.data == [] then None
    else match Cbor.Decode(b.data)
      case Some(v) => if v.Array? && |v.items| >= 2 then Some(v.items) else None
      case None => None
  }

  /** `HopCountBlock::GetLimit`: 0 when the data does not hold a pair. */
  function GetLimit(b: CanonicalBlock): uint64 {
    match HopCountPair(b)
    case Some(items) => Cbor.GetUnsignedInteger(items[0])
    case None => 0
  }

  /** `HopCountBlock::GetCount`: 0 when the data does not hold a pair. */
  function GetCount(b: CanonicalBlock): uint64 {
    match HopCountPair(b)
    case Some(items) => Cbor.GetUnsignedInteger(items[1])
    case None => 0
  }

  /** The data holding the pair [limit, count]. */
  function HopCountData(limit: uint64, count: uint64): seq<uint8> {
    Cbor.Encode(Cbor.Array([Cbor.Unsigned(limit), Cbor.Unsigned(count)]))
  }

  lemma HopCountDataReads(b: CanonicalBlock, limit: uint64, count: uint64)
    ensures GetLimit(b.(data := HopCountData(limit, count))) == limit
    ensures GetCount(b.(data := HopCountData(limit, count))) == count
  {
    var v := Cbor.Array([Cbor.Unsigned(limit), Cbor.Unsigned(count)]);
    assert Cbor.WellFormed(v) by {
      assert Cbor.WellFormed(v.items[0]) && Cbor.WellFormed(v.items[1]);
    }
    Cbor.DecodeOfEncode(v);
  }

  /** `HopCountBlock::SetLimit`: a new limit, the count kept. */
  function SetLimit(b: CanonicalBlock, limit: uint64): (r: CanonicalBlock)
    ensures r == b.(data := r.data)
    ensures GetLimit(r) == limit && GetCount(r) == GetCount(b)
  {
    HopCountDataReads(b, limit, GetCount(b));
    b.(data := HopCountData(limit, GetCount(b)))
  }

  /** `HopCountBlock::SetCount`: a new count, the limit kept. */
  function SetCount(b: CanonicalBlock, count: uint64): (r: CanonicalBlock)
    ensures r == b.(data := r.data)
    ensures GetCount(r) == count && GetLimit(r) == GetLimit(b)
  {
    HopCountDataReads(b, GetLimit(b), count);
    b.(data := HopCountData(GetLimit(b), count))
  }

  /** `HopCountBlock::Increment`: one more hop, wrapping at 2^64 like the
      `uint64_t` it is. */
  function Increment(b: CanonicalBlock): (r: CanonicalBlock)
    ensures GetCount(r) == (GetCount(b) + 1) % TWO_TO_THE_64
    ensures GetLimit(r) == GetLimit(b)
  {
    SetCount(b, (GetCount(b) + 1) % TWO_TO_THE_64)
  }

  /** `HopCountBlock::Exceeded`. */
  predicate Exceeded(b: CanonicalBlock) {
    GetCount(b) >= GetLimit(b)
  }

  /** A count below the limit is exceeded after exactly the hops that reach
      it. */
  lemma IncrementReachesLimit(b: CanonicalBlock)
    requires !Exceeded(b)
    ensures Exceeded(Increment(b)) <==> GetCount(b) + 1 == GetLimit(b)
  {
    var r := Increment(b);
    assert GetCount(r) == GetCount(b) + 1 && GetLimit(r) == GetLimit(b);
  }

  /** `HopCountBlock(limit, count)`: block number 4, no flags, no CRC. */
  function NewHopCountBlock(limit: uint64, count: uint64): (b: CanonicalBlock)
    ensures b.kind == HopCount && b.blockType == HOP_COUNT_BLOCK && b.number == 4
    ensures GetLimit(b) == limit && GetCount(b) == count
  {
    SetCount(SetLimit(CreateBlock(HOP_COUNT_BLOCK, 4, 0, NO_CRC, []), limit), count)
  }
}

/** The primary block of a bundle (`primary-block.cc`, section 4.3.1 of
    RFC 9171): its fields, the bundle processing control flags, the CBOR
    array layout with its conditional fragment and CRC fields, and the CRC
    that covers the block. */
module PrimaryBlock {
  import opened Wrappers
  import opened BoundedInts
  import opened BlockTypeCodes
  import Flags
  import Cbor
  import Crc
  import Endpoint
  import DtnTime

  /** `BundleControlFlags`: one bit each. */
  const BUNDLE_DELETION_STATUS_REPORTS_REQUESTED: bv64 := 0x01
  const BUNDLE_DELIVERY_STATUS_REPORTS_REQUESTED: bv64 := 0x02
  const BUNDLE_FORWARDING_STATUS_REPORTS_REQUESTED: bv64 := 0x04
  const BUNDLE_RECEPTION_STATUS_REPORTS_REQUESTED: bv64 := 0x08
  const BUNDLE_MUST_NOT_BE_FRAGMENTED: bv64 := 0x10
  const PAYLOAD_IS_AN_ADMINISTRATIVE_RECORD: bv64 := 0x20
  const BUNDLE_IS_A_FRAGMENT: bv64 := 0x40

  /** `PrimaryBlock::DEFAULT_VERSION`. */
  const DEFAULT_VERSION: uint64 := 7

  /** The default lifetime of the default constructor: one hour. */
  const DEFAULT_LIFETIME_MS: uint64 := 3_600_000

  /** `PrimaryBlock`. The lifetime is held in milliseconds, the unit of its
      encoding. */
  datatype PrimaryBlock = PrimaryBlock(
    version: uint64,
    flags: bv64,
    crcType: uint64,
    destination: Endpoint.EndpointId,
    source: Endpoint.EndpointId,
    reportTo: Endpoint.EndpointId,
    creation: DtnTime.DtnTime,
    sequenceNumber: uint64,
    lifetimeMs: uint64,
    fragmentOffset: uint64,
    totalLength: uint64,
    crc: seq<uint8>)

  /** The default constructor. */
  function Default(): (b: PrimaryBlock)
    ensures b.version == DEFAULT_VERSION && b.flags == 0 && b.crcType == NO_CRC
    ensures Endpoint.IsNone(b.destination) && Endpoint.IsNone(b.source) && Endpoint.IsNone(b.reportTo)
  {
    PrimaryBlock(DEFAULT_VERSION, 0, NO_CRC, Endpoint.DTN_NONE, Endpoint.DTN_NONE, Endpoint.DTN_NONE,
                 DtnTime.DtnTime(0, 0), 0, DEFAULT_LIFETIME_MS, 0, 0, [])
  }

  const NANOS_PER_MILLISECOND: nat := 1_000_000

  /** The lifetime as a `Time`: `MilliSeconds(ms)` multiplies in 64 bits,
      so a lifetime past `INT64_MAX` nanoseconds wraps around. */
  function LifetimeNanos(ms: uint64): (r: DtnTime.Time)
    ensures INT64_MIN <= r <= INT64_MAX
    ensures (r - ms * NANOS_PER_MILLISECOND) % TWO_TO_THE_64 == 0
    ensures ms * NANOS_PER_MILLISECOND <= INT64_MAX ==> r == ms * NANOS_PER_MILLISECOND
  {
    Int64Of(ms * NANOS_PER_MILLISECOND)
  }

  /** When a bundle expires, in simulation nanoseconds: `creationTime +
      lifetime` in `ns3::Time`. The fragmentation manager, the store and the
      routers all compute this sum. It is the exact instant while that fits
      in 64 signed bits, and wraps around past it. */
  function ExpirationTime(b: PrimaryBlock): (t: DtnTime.Time)
    ensures INT64_MIN <= t <= INT64_MAX
    ensures t == Int64Of(DtnTime.Instant(b.creation) + b.lifetimeMs * NANOS_PER_MILLISECOND)
    ensures DtnTime.Instant(b.creation) + b.lifetimeMs * NANOS_PER_MILLISECOND <= INT64_MAX ==>
              t == DtnTime.Instant(b.creation) + b.lifetimeMs * NANOS_PER_MILLISECOND
  {
    var t := Int64Of(DtnTime.ToTime(b.creation) + LifetimeNanos(b.lifetimeMs));
    assert t == Int64Of(DtnTime.Instant(b.creation) + b.lifetimeMs * NANOS_PER_MILLISECOND) by {
      Int64OfAdd(DtnTime.Instant(b.creation), b.lifetimeMs * NANOS_PER_MILLISECOND);
    }
    t
  }

  /** A lifetime of 9223372036855 ms, just past `INT64_MAX` nanoseconds,
      makes a bundle created at the DTN epoch expire before it was created. */
  lemma ExpirationWraps(b: PrimaryBlock)
    requires b.creation == DtnTime.DtnTime(0, 0) && b.lifetimeMs == 9_223_372_036_855
    ensures DtnTime.Instant(b.creation) + b.lifetimeMs * NANOS_PER_MILLISECOND > INT64_MAX
    ensures ExpirationTime(b) == -9_223_372_036_854_551_616
  {
    assert DtnTime.Instant(b.creation) == 0;
  }

  // Flags

  /** The flag getters (`IsFragment`, `MustNotFragment`, ...): one bit each. */
  predicate HasFlag(b: PrimaryBlock, flag: bv64) {
    Flags.Has(b.flags, flag)
  }

  /** `HasFragmentation`, also spelled `IsFragment`. */
  predicate IsFragment(b: PrimaryBlock) {
    HasFlag(b, BUNDLE_IS_A_FRAGMENT)
  }

  /** The flag setters (`SetFragmentation`, `SetMustNotFragment`, ...): the
      flag is set or cleared, every other bit and every other field stays. */
  function SetFlag(b: PrimaryBlock, flag: bv64, enable: bool): (r: PrimaryBlock)
    requires flag != 0
    ensures HasFlag(r, flag) == enable
    ensures r == b.(flags := r.flags)
    ensures forall other: bv64 {:trigger HasFlag(r, other)} :: flag & other == 0 ==> HasFlag(r, other) == HasFlag(b, other)
  {
    Flags.SetDecidesItsFlag(b.flags, flag, enable);
    forall other: bv64 | flag & other == 0
      ensures Flags.Has(Flags.Set(b.flags, flag, enable), other) == Flags.Has(b.flags, other)
    {
      Flags.SetKeepsOtherFlags(b.flags, flag, enable, other);
    }
    b.(flags := Flags.Set(b.flags, flag, enable))
  }

  // CBOR layout

  /** The fixed part of the array: version, flags, CRC type, the three
      endpoint URIs, [creation seconds, sequence number], lifetime. */
  function FixedFields(b: PrimaryBlock): seq<Cbor.CborValue> {
    [Cbor.Unsigned(b.version), Cbor.Unsigned(Flags.ToUint64(b.flags)), Cbor.Unsigned(b.crcType),
     Cbor.Text(b.destination.uri), Cbor.Text(b.source.uri), Cbor.Text(b.reportTo.uri),
     Cbor.Array([Cbor.Unsigned(b.creation.seconds), Cbor.Unsigned(b.sequenceNumber)]),
     Cbor.Unsigned(b.lifetimeMs)]
  }

  /** Offset and total length, present only in a fragment. */
  function FragmentFields(b: PrimaryBlock): seq<Cbor.CborValue> {
    if IsFragment(b) then [Cbor.Unsigned(b.fragmentOffset), Cbor.Unsigned(b.totalLength)] else []
  }

  /** The CRC value, present only with a CRC type and a computed value. */
  function CrcField(crcType: uint64, crc: seq<uint8>): seq<Cbor.CborValue> {
    if crcType != NO_CRC && |crc| > 0 then [Cbor.Bytes(crc)] else []
  }

  /** `ToCbor`, as a CBOR value. */
  function ToCborValue(b: PrimaryBlock): (v: Cbor.CborValue)
    ensures v.Array?
    ensures |v.items| == 8 + (if IsFragment(b) then 2 else 0) + (if b.crcType != NO_CRC && |b.crc| > 0 then 1 else 0)
  {
    Cbor.Array(FixedFields(b) + FragmentFields(b) + CrcField(b.crcType, b.crc))
  }

  /** `ToCbor`: the encoded array. */
  function ToCbor(b: PrimaryBlock): seq<uint8> {
    Cbor.Encode(ToCborValue(b))
  }

  /** Where the CRC value sits in the array. */
  function CrcIndex(isFragment: bool): nat {
    if isFragment then 10 else 8
  }

  /** `FromCbor`, on a decoded value. Scalars that are not unsigned integers
      read as 0 and URIs that are not text read as "" (so as "dtn:none"); the
      creation time gets no nanoseconds; the offset and total length are read
      only for a fragment, the CRC only with a CRC type. */
  function FromCborValue(v: Cbor.CborValue): (r: Option<PrimaryBlock>)
    ensures !v.Array? || |v.items| < 8 ==> r.None?
    ensures v.Array? && |v.items| >= 8 && !(v.items[6].Array? && |v.items[6].items| == 2) ==> r.None?
    ensures r.Some? ==> Endpoint.WellFormed(r.value.destination) && Endpoint.WellFormed(r.value.source)
                        && Endpoint.WellFormed(r.value.reportTo)
    ensures r.Some? ==> r.value.creation.nanoseconds == 0
    ensures r.Some? && !IsFragment(r.value) ==> r.value.fragmentOffset == 0 && r.value.totalLength == 0
    ensures r.Some? && IsFragment(r.value) ==> |v.items| >= 10
    ensures r.Some? && r.value.crcType == NO_CRC ==> r.value.crc == []
    ensures r.Some? && r.value.crcType != NO_CRC ==>
              |v.items| > CrcIndex(IsFragment(r.value)) && v.items[CrcIndex(IsFragment(r.value))] == Cbor.Bytes(r.value.crc)
  {
    if !v.Array? || |v.items| < 8 then None
    else
      var a := v.items;
      if !(a[6].Array? && |a[6].items| == 2) then None
      else
        var flags := Flags.FromUint64(Cbor.GetUnsignedInteger(a[1]));
        var crcType := Cbor.GetUnsignedInteger(a[2]);
        var fragment := Flags.Has(flags, BUNDLE_IS_A_FRAGMENT);
        if fragment && |a| < 10 then None
        else
          var k := CrcIndex(fragment);
          if crcType != NO_CRC && (|a| <= k || !a[k].Bytes?) then None
          else Some(ReadFields(a, flags, crcType))
  }

  /** The block an array that passed the checks of `FromCbor` holds. */
  function ReadFields(a: seq<Cbor.CborValue>, flags: bv64, crcType: uint64): (r: PrimaryBlock)
    requires |a| >= 8 && a[6].Array? && |a[6].items| == 2
    requires Flags.Has(flags, BUNDLE_IS_A_FRAGMENT) ==> |a| >= 10
    requires crcType != NO_CRC ==> |a| > CrcIndex(Flags.Has(flags, BUNDLE_IS_A_FRAGMENT)) &&
                                   a[CrcIndex(Flags.Has(flags, BUNDLE_IS_A_FRAGMENT))].Bytes?
    ensures r.flags == flags && r.crcType == crcType
  {
    var fragment := Flags.Has(flags, BUNDLE_IS_A_FRAGMENT);
    PrimaryBlock(
      Cbor.GetUnsignedInteger(a[0]), flags, crcType,
      Endpoint.Make(Cbor.GetTextString(a[3])),
      Endpoint.Make(Cbor.GetTextString(a[4])),
      Endpoint.Make(Cbor.GetTextString(a[5])),
      DtnTime.DtnTime(Cbor.GetUnsignedInteger(a[6].items[0]), 0),
      Cbor.GetUnsignedInteger(a[6].items[1]),
      Cbor.GetUnsignedInteger(a[7]),
      if fragment then Cbor.GetUnsignedInteger(a[8]) else 0,
      if fragment then Cbor.GetUnsignedInteger(a[9]) else 0,
      if crcType != NO_CRC then a[CrcIndex(fragment)].bytes else [])
  }

  /** `FromCbor`: decode, then read the array. */
  function FromCbor(buffer: seq<uint8>): Option<PrimaryBlock> {
    match Cbor.Decode(buffer)
    case None => None
    case Some(v) => FromCborValue(v)
  }

  // Round trip

  /** What the encoding of a block carries: the creation time loses its
      nanoseconds, a non-fragment its offset and total length, and a block
      without a CRC type its CRC value. */
  function Carried(b: PrimaryBlock): PrimaryBlock {
    b.(creation := DtnTime.DtnTime(b.creation.seconds, 0),
       fragmentOffset := if IsFragment(b) then b.fragmentOffset else 0,
       totalLength := if IsFragment(b) then b.totalLength else 0,
       crc := if b.crcType != NO_CRC then b.crc else [])
  }

  /** Endpoints as the constructors make them. */
  predicate EndpointsWellFormed(b: PrimaryBlock) {
    Endpoint.WellFormed(b.destination) && Endpoint.WellFormed(b.source) && Endpoint.WellFormed(b.reportTo)
  }

  /** Reading back the array of a block gives the part of it the array
      carries; a block with a CRC type but no computed CRC value is refused,
      since its array lacks the CRC field the reader requires. */
  lemma CborValueRoundTrip(b: PrimaryBlock)
    requires EndpointsWellFormed(b)
    ensures b.crcType != NO_CRC && b.crc == [] ==> FromCborValue(ToCborValue(b)) == None
    ensures b.crcType == NO_CRC || b.crc != [] ==> FromCborValue(ToCborValue(b)) == Some(Carried(b))
  {
    if b.crcType != NO_CRC && b.crc == [] {
      MissingCrcRefused(b);
    } else {
      CarriedFieldsRead(b);
    }
  }

  /** The array of a block starts with its fixed fields, and its flag word
      reads back as the block's flags. */
  lemma ArrayPrefix(b: PrimaryBlock)
    ensures ToCborValue(b).items[..8] == FixedFields(b)
    ensures Flags.FromUint64(Cbor.GetUnsignedInteger(ToCborValue(b).items[1])) == b.flags
    ensures ToCborValue(b).items[6].Array? && |ToCborValue(b).items[6].items| == 2
  {
    assert ToCborValue(b).items[..8] == FixedFields(b);
  }

  lemma MissingCrcRefused(b: PrimaryBlock)
    requires b.crcType != NO_CRC && b.crc == []
    ensures FromCborValue(ToCborValue(b)) == None
  {
    ArrayPrefix(b);
  }

  lemma CarriedFieldsRead(b: PrimaryBlock)
    requires EndpointsWellFormed(b)
    requires b.crcType == NO_CRC || b.crc != []
    ensures FromCborValue(ToCborValue(b)) == Some(Carried(b))
  {
    ArrayFields(b);
    var a := ToCborValue(b).items;
    ReadFieldsCarried(b, a);
    ReadAccepts(ToCborValue(b), b.flags, b.crcType);
  }

  /** `a` holds the fields of `b` where the encoder puts them. */
  predicate HoldsFields(b: PrimaryBlock, a: seq<Cbor.CborValue>) {
    |a| == 8 + (if IsFragment(b) then 2 else 0) + (if b.crcType != NO_CRC && |b.crc| > 0 then 1 else 0) &&
    a[0] == Cbor.Unsigned(b.version) && a[1] == Cbor.Unsigned(Flags.ToUint64(b.flags)) &&
    a[2] == Cbor.Unsigned(b.crcType) && a[3] == Cbor.Text(b.destination.uri) &&
    a[4] == Cbor.Text(b.source.uri) && a[5] == Cbor.Text(b.reportTo.uri) &&
    a[6] == Cbor.Array([Cbor.Unsigned(b.creation.seconds), Cbor.Unsigned(b.sequenceNumber)]) &&
    a[7] == Cbor.Unsigned(b.lifetimeMs) &&
    (IsFragment(b) ==> a[8] == Cbor.Unsigned(b.fragmentOffset) && a[9] == Cbor.Unsigned(b.totalLength)) &&
    (b.crcType != NO_CRC && |b.crc| > 0 ==> a[CrcIndex(IsFragment(b))] == Cbor.Bytes(b.crc))
  }

  /** The array of a block, field by field. */
  lemma ArrayFields(b: PrimaryBlock)
    ensures HoldsFields(b, ToCborValue(b).items)
  {
    ArrayPrefix(b);
    assert ToCborValue(b).items[8..] == FragmentFields(b) + CrcField(b.crcType, b.crc);
  }

  /** An array that passes every check of `FromCbor` reads as its fields. */
  lemma ReadAccepts(v: Cbor.CborValue, flags: bv64, crcType: uint64)
    requires v.Array? && |v.items| >= 8 && v.items[6].Array? && |v.items[6].items| == 2
    requires Flags.FromUint64(Cbor.GetUnsignedInteger(v.items[1])) == flags
    requires Cbor.GetUnsignedInteger(v.items[2]) == crcType
    requires Flags.Has(flags, BUNDLE_IS_A_FRAGMENT) ==> |v.items| >= 10
    requires crcType != NO_CRC ==> |v.items| > CrcIndex(Flags.Has(flags, BUNDLE_IS_A_FRAGMENT)) &&
                                   v.items[CrcIndex(Flags.Has(flags, BUNDLE_IS_A_FRAGMENT))].Bytes?
    ensures FromCborValue(v) == Some(ReadFields(v.items, flags, crcType))
  {
  }

  /** The fields read back from the array of `b` are the ones it carries. */
  lemma ReadFieldsCarried(b: PrimaryBlock, a: seq<Cbor.CborValue>)
    requires EndpointsWellFormed(b)
    requires b.crcType == NO_CRC || b.crc != []
    requires HoldsFields(b, a)
    ensures Flags.FromUint64(Cbor.GetUnsignedInteger(a[1])) == b.flags
    ensures Cbor.GetUnsignedInteger(a[2]) == b.crcType
    ensures ReadFields(a, b.flags, b.crcType) == Carried(b)
  {
    Endpoint.MakeOfWellFormed(b.destination);
    Endpoint.MakeOfWellFormed(b.source);
    Endpoint.MakeOfWellFormed(b.reportTo);
  }

  /** A block whose every field is carried survives the round trip. */
  predicate Encodable(b: PrimaryBlock) {
    EndpointsWellFormed(b) && b.creation.nanoseconds == 0 &&
    (!IsFragment(b) ==> b.fragmentOffset == 0 && b.totalLength == 0) &&
    (b.crcType == NO_CRC <==> b.crc == [])
  }

  /** Endpoint URIs that a C++ string can hold and CRC values of `size_t`
      length: the encoding is then a well-formed CBOR item. */
  predicate Representable(b: PrimaryBlock) {
    Endpoint.IsCppString(b.destination.uri) && Endpoint.IsCppString(b.source.uri) &&
    Endpoint.IsCppString(b.reportTo.uri) && |b.crc| < TWO_TO_THE_64
  }

  lemma ToCborValueWellFormed(b: PrimaryBlock)
    requires Representable(b)
    ensures Cbor.WellFormed(ToCborValue(b))
  {
    var a := ToCborValue(b).items;
    forall i | 0 <= i < |a| ensures Cbor.WellFormed(a[i]) {
      if i == 6 {
        assert Cbor.WellFormed(a[6].items[0]) && Cbor.WellFormed(a[6].items[1]);
      }
    }
  }

  /** `FromCbor(ToCbor(b))` gives back every block whose fields the encoding
      carries. */
  lemma CborRoundTrip(b: PrimaryBlock)
    requires Encodable(b) && Representable(b)
    ensures FromCbor(ToCbor(b)) == Some(b)
  {
    ToCborValueWellFormed(b);
    Cbor.DecodeOfEncode(ToCborValue(b));
    CborValueRoundTrip(b);
  }

  /** The offset and total length of a non-fragment change neither its
      encoding nor its CRC check. */
  lemma NonFragmentIgnoresFragmentFields(b: PrimaryBlock, offset: uint64, total: uint64)
    requires !IsFragment(b)
    ensures ToCbor(b.(fragmentOffset := offset, totalLength := total)) == ToCbor(b)
    ensures CheckCRC(b.(fragmentOffset := offset, totalLength := total)) == CheckCRC(b)
  {
    var c := b.(fragmentOffset := offset, totalLength := total);
    assert ToCborValue(c) == ToCborValue(b);
    assert ToCborValue(c.(crc := [])) == ToCborValue(b.(crc := []));
  }

  // CRC

  /** The bytes the CRC covers: the encoding of the block without its CRC
      value, so without the CRC field. */
  function CrcInput(b: PrimaryBlock): seq<uint8> {
    ToCbor(b.(crc := []))
  }

  /** `CalculateCRC`: no CRC type clears the value; otherwise the value is
      computed over the block without it (two bytes for CRC-16, four for
      CRC-32, none for an unknown type). Nothing else changes. */
  function CalculateCRC(b: PrimaryBlock): (r: PrimaryBlock)
    ensures r == b.(crc := r.crc)
    ensures b.crcType == CRC_16 ==> |r.crc| == 2
    ensures b.crcType == CRC_32 ==> |r.crc| == 4
    ensures b.crcType != CRC_16 && b.crcType != CRC_32 ==> r.crc == []
    ensures CheckCRC(r)
  {
    var r := if b.crcType == NO_CRC then b.(crc := []) else b.(crc := Crc.CalculateCRC(b.crcType, CrcInput(b)));
    assert r.(crc := []) == b.(crc := []);
    Crc.CalculatedVerifies(b.crcType, CrcInput(b));
    r
  }

  /** `CheckCRC`: true without a CRC type; otherwise the stored value must be
      the CRC of the block without it. */
  predicate CheckCRC(b: PrimaryBlock) {
    b.crcType == NO_CRC || Crc.VerifyCRC(b.crcType, CrcInput(b), b.crc)
  }

  /** With a CRC type, a block passes the check exactly when its stored value
      is the one `CalculateCRC` stores. */
  lemma CheckCRCMeansCalculated(b: PrimaryBlock)
    ensures CheckCRC(b) <==> b.crcType == NO_CRC || b == CalculateCRC(b)
  {
  }
}

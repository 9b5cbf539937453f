/** Bundle identifiers (`bundle-id.cc`): source, creation timestamp, sequence
    number and, for fragments, the fragment offset (section 4.2.7 of
    RFC 9171), with equality, ordering and the hash the stores use. */
module BundleId {
  import opened BoundedInts
  import Endpoint
  import DtnTime
  import Lexicographic

  datatype BundleId = BundleId(
    source: Endpoint.EndpointId,
    timestamp: DtnTime.DtnTime,
    sequenceNumber: uint64,
    isFragment: bool,
    fragmentOffset: uint64)

  /** `operator==`: the fragment offset only matters when both are fragments. */
  predicate Equal(a: BundleId, b: BundleId) {
    a.isFragment == b.isFragment &&
    Endpoint.Equal(a.source, b.source) &&
    a.timestamp == b.timestamp &&
    a.sequenceNumber == b.sequenceNumber &&
    !(a.isFragment && b.isFragment && a.fragmentOffset != b.fragmentOffset)
  }

  /** `operator<`: source, timestamp, sequence number, then whole bundles
      before fragments, then fragment offset. */
  predicate Less(a: BundleId, b: BundleId) {
    if !Endpoint.Equal(a.source, b.source) then Endpoint.Less(a.source, b.source)
    else if a.timestamp != b.timestamp then DtnTime.Less(a.timestamp, b.timestamp)
    else if a.sequenceNumber != b.sequenceNumber then a.sequenceNumber < b.sequenceNumber
    else if a.isFragment != b.isFragment then !a.isFragment && b.isFragment
    else if a.isFragment && b.isFragment then a.fragmentOffset < b.fragmentOffset
    else false
  }

  /** The fields that decide identity: an independent statement of what
      `operator==` compares. */
  datatype IdKey = IdKey(uri: string, seconds: uint64, nanoseconds: uint64,
                         sequenceNumber: uint64, isFragment: bool, offset: uint64)

  function Key(id: BundleId): IdKey {
    IdKey(id.source.uri, id.timestamp.seconds, id.timestamp.nanoseconds,
          id.sequenceNumber, id.isFragment, if id.isFragment then id.fragmentOffset else 0)
  }

  /** Two identifiers are equal exactly when their keys are: the offset of a
      whole bundle is ignored. */
  lemma EqualIffSameKey(a: BundleId, b: BundleId)
    ensures Equal(a, b) <==> Key(a) == Key(b)
  {
  }

  /** `operator==` is an equivalence. */
  lemma EqualIsEquivalence(a: BundleId, b: BundleId, c: BundleId)
    ensures Equal(a, a)
    ensures Equal(a, b) ==> Equal(b, a)
    ensures Equal(a, b) && Equal(b, c) ==> Equal(a, c)
  {
    EqualIffSameKey(a, b);
    EqualIffSameKey(b, c);
    EqualIffSameKey(a, c);
  }

  /** `operator<` is a strict weak order whose incomparable pairs are exactly
      the `operator==` pairs, so `std::map<BundleID, …>` keys and the
      identifiers' equality agree. */
  lemma LessIsStrictOrderModuloEqual(a: BundleId, b: BundleId, c: BundleId)
    ensures !Less(a, a)
    ensures Less(a, b) && Less(b, c) ==> Less(a, c)
    ensures Equal(a, b) <==> !Less(a, b) && !Less(b, a)
  {
    Lexicographic.StringLessIsStrictTotalOrder();
    DtnTime.OrderLaws(a.timestamp, b.timestamp, c.timestamp);
  }

  /** One step of `Hash`: `hash ^= value << 1`. */
  function Mix(h: bv64, value: bv64): bv64 {
    h ^ (value << 1)
  }

  /** `Hash`: the source's string hash, then the seconds of the timestamp,
      the sequence number and, for fragments, the offset mixed in.
      `std::hash` is left as the parameters `hashString` and `hashUint`. */
  function Hash(id: BundleId, hashString: string -> bv64, hashUint: uint64 -> bv64): bv64 {
    var h := Mix(Mix(hashString(id.source.uri), hashUint(id.timestamp.seconds)), hashUint(id.sequenceNumber));
    if id.isFragment then Mix(h, hashUint(id.fragmentOffset)) else h
  }

  /** Equal identifiers hash alike, whatever `std::hash` is, as unordered
      containers require. */
  lemma HashRespectsEqual(a: BundleId, b: BundleId, hashString: string -> bv64, hashUint: uint64 -> bv64)
    requires Equal(a, b)
    ensures Hash(a, hashString, hashUint) == Hash(b, hashString, hashUint)
  {
    assert a.source.uri == b.source.uri;
  }
}

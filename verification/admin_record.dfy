/** Administrative records (`administrative-record.cc`): the bundle status
    report of section 6.1.1 of RFC 9171, its CBOR form, and the factory
    functions the node uses to report reception, forwarding, delivery and
    deletion of a bundle. Custody signals are recognised by type code but
    never decoded. */
module AdminRecord {
  import opened Wrappers
  import opened BoundedInts
  import Cbor
  import Endpoint
  import DtnTime
  import BundleId
  import B = Bundle

  /** `AdminRecordType`. */
  const BUNDLE_STATUS_REPORT: uint64 := 1
  const CUSTODY_SIGNAL: uint64 := 2

  /** `BundleStatusFlag`: one bit per reported event. */
  const NO_FLAGS: bv64 := 0
  const BUNDLE_RECEIVED: bv64 := 0x01
  const BUNDLE_FORWARDED: bv64 := 0x02
  const BUNDLE_DELIVERED: bv64 := 0x04
  const BUNDLE_DELETED: bv64 := 0x08
  const ACKNOWLEDGED_BY_CUSTODIAN: bv64 := 0x10

  /** `ReasonCode::NO_INFORMATION`, the reason every report but a deletion
      report carries. */
  const NO_INFORMATION: uint64 := 0

  /** A `BundleStatusReport`: the status flags, the reason code, the bundle
      the report is about, its source node and one optional time per event. */
  datatype StatusReport = StatusReport(
    flags: bv64,
    reason: uint64,
    refBundle: BundleId.BundleId,
    sourceNode: Endpoint.EndpointId,
    receiveTime: Option<DtnTime.DtnTime>,
    forwardTime: Option<DtnTime.DtnTime>,
    deliveryTime: Option<DtnTime.DtnTime>,
    deletionTime: Option<DtnTime.DtnTime>)

  /** The administrative records the decoder can produce: status reports are
      the only kind it implements. */
  datatype AdministrativeRecord = StatusReportRecord(report: StatusReport)

  /** The four-argument constructor: flags, reason, subject and source, with
      no times recorded. */
  function NewReport(flags: bv64, reason: uint64, refBundle: BundleId.BundleId,
                     sourceNode: Endpoint.EndpointId): (r: StatusReport)
    ensures r.flags == flags && r.reason == reason
    ensures r.refBundle == refBundle && r.sourceNode == sourceNode
    ensures r.receiveTime.None? && r.forwardTime.None? && r.deliveryTime.None? && r.deletionTime.None?
  {
    StatusReport(flags, reason, refBundle, sourceNode, None, None, None, None)
  }

  predicate HasStatusFlag(r: StatusReport, flag: bv64) {
    r.flags & flag != 0
  }

  /** The time recorded for the event `flag` names. */
  function TimeOf(r: StatusReport, flag: bv64): Option<DtnTime.DtnTime> {
    if flag == BUNDLE_RECEIVED then r.receiveTime
    else if flag == BUNDLE_FORWARDED then r.forwardTime
    else if flag == BUNDLE_DELIVERED then r.deliveryTime
    else if flag == BUNDLE_DELETED then r.deletionTime
    else None
  }

  // Encoding

  /** The reported bundle as [source, creation seconds, sequence number,
      fragment marker (, offset)]. The source written is the report's source
      node, and only the seconds of the creation time are kept. */
  function IdValue(r: StatusReport): Cbor.CborValue {
    var head := [Cbor.Text(r.sourceNode.uri), Cbor.Unsigned(r.refBundle.timestamp.seconds),
                 Cbor.Unsigned(r.refBundle.sequenceNumber)];
    if r.refBundle.isFragment then
      Cbor.Array(head + [Cbor.Unsigned(1), Cbor.Unsigned(r.refBundle.fragmentOffset)])
    else
      Cbor.Array(head + [Cbor.Unsigned(0)])
  }

  /** A time slot: the seconds of the time when its flag is set and a time is
      recorded, zero otherwise. */
  function TimeSlot(r: StatusReport, flag: bv64, t: Option<DtnTime.DtnTime>): Cbor.CborValue {
    if HasStatusFlag(r, flag) && t.Some? then Cbor.Unsigned(t.value.seconds) else Cbor.Unsigned(0)
  }

  /** `BundleStatusReport::ToCbor` before encoding:
      [1, [flags, reason, id, received, forwarded, delivered, deleted]]. */
  function ToCborValue(r: StatusReport): Cbor.CborValue {
    Cbor.Array([
      Cbor.Unsigned(BUNDLE_STATUS_REPORT),
      Cbor.Array([
        Cbor.Unsigned(r.flags as int),
        Cbor.Unsigned(r.reason),
        IdValue(r),
        TimeSlot(r, BUNDLE_RECEIVED, r.receiveTime),
        TimeSlot(r, BUNDLE_FORWARDED, r.forwardTime),
        TimeSlot(r, BUNDLE_DELIVERED, r.deliveryTime),
        TimeSlot(r, BUNDLE_DELETED, r.deletionTime)])])
  }

  function ToCbor(r: StatusReport): seq<uint8> {
    Cbor.Encode(ToCborValue(r))
  }

  // Decoding

  /** The shape the report decoder accepts, stated on the CBOR value itself:
      an array of at least two items whose first is the unsigned integer 1 and
      whose second is an array of at least seven items, the third of them an
      array of at least four items. */
  predicate ReportShape(v: Cbor.CborValue) {
    v.Array? && |v.items| >= 2 && v.items[0] == Cbor.Unsigned(BUNDLE_STATUS_REPORT) &&
    v.items[1].Array? && |v.items[1].items| >= 7 &&
    v.items[1].items[2].Array? && |v.items[1].items[2].items| >= 4
  }

  /** A time is decoded only when its flag is set and its seconds are
      positive; the nanoseconds are not carried. */
  function DecodeTime(flags: bv64, flag: bv64, v: Cbor.CborValue): Option<DtnTime.DtnTime> {
    var secs := Cbor.GetUnsignedInteger(v);
    if flags & flag != 0 && secs > 0 then Some(DtnTime.DtnTime(secs, 0)) else None
  }

  /** A time slot the decoder can have produced: absent, or set with its flag,
      positive seconds and no nanoseconds. */
  predicate TimeCarried(flags: bv64, flag: bv64, t: Option<DtnTime.DtnTime>) {
    t.None? || (flags & flag != 0 && t.value.seconds > 0 && t.value.nanoseconds == 0)
  }

  /** The reports the wire form can express exactly: a well-formed source
      node that is also the subject's source, a whole-second creation time, a
      zero offset on whole bundles, and times only where the decoder keeps
      them. */
  predicate Faithful(r: StatusReport) {
    Endpoint.WellFormed(r.sourceNode) &&
    r.refBundle.source == r.sourceNode &&
    r.refBundle.timestamp.nanoseconds == 0 &&
    (!r.refBundle.isFragment ==> r.refBundle.fragmentOffset == 0) &&
    TimeCarried(r.flags, BUNDLE_RECEIVED, r.receiveTime) &&
    TimeCarried(r.flags, BUNDLE_FORWARDED, r.forwardTime) &&
    TimeCarried(r.flags, BUNDLE_DELIVERED, r.deliveryTime) &&
    TimeCarried(r.flags, BUNDLE_DELETED, r.deletionTime)
  }

  /** `BundleStatusReport::FromCbor` after decoding. Missing or mistyped
      fields read as zero or the empty string, as the typed getters make
      them; the offset is read only behind a non-zero fragment marker and a
      fifth identifier item. */
  function ReportFromCborValue(v: Cbor.CborValue): (r: Option<StatusReport>)
    ensures r.Some? <==> ReportShape(v)
    ensures r.Some? ==> Faithful(r.value)
  {
    if !v.Array? then None
    else if |v.items| < 2 then None
    else if Cbor.GetUnsignedInteger(v.items[0]) != BUNDLE_STATUS_REPORT then None
    else
      var report := Cbor.GetArray(v.items[1]);
      if |report| < 7 then None
      else
        var ids := Cbor.GetArray(report[2]);
        if |ids| < 4 then None
        else Some(Read(report, ids))
  }

  /** The report read from the seven report items and the (at least four)
      identifier items; the source node doubles as the subject's source. */
  function Read(report: seq<Cbor.CborValue>, ids: seq<Cbor.CborValue>): (r: StatusReport)
    requires |report| >= 7 && |ids| >= 4
    ensures Faithful(r)
  {
    var flags := Cbor.GetUnsignedInteger(report[0]) as bv64;
    var id := ReadId(ids);
    StatusReport(flags, Cbor.GetUnsignedInteger(report[1]), id, id.source,
                 DecodeTime(flags, BUNDLE_RECEIVED, report[3]),
                 DecodeTime(flags, BUNDLE_FORWARDED, report[4]),
                 DecodeTime(flags, BUNDLE_DELIVERED, report[5]),
                 DecodeTime(flags, BUNDLE_DELETED, report[6]))
  }

  /** The subject bundle: the endpoint constructor applied to the source
      text, whole creation seconds, and an offset only behind a non-zero
      fragment marker and a fifth item. */
  function ReadId(ids: seq<Cbor.CborValue>): (id: BundleId.BundleId)
    requires |ids| >= 4
    ensures Endpoint.WellFormed(id.source) && id.timestamp.nanoseconds == 0
    ensures !id.isFragment ==> id.fragmentOffset == 0
  {
    var isFragment := Cbor.GetUnsignedInteger(ids[3]) != 0;
    BundleId.BundleId(Endpoint.Make(Cbor.GetTextString(ids[0])),
                      DtnTime.DtnTime(Cbor.GetUnsignedInteger(ids[1]), 0),
                      Cbor.GetUnsignedInteger(ids[2]), isFragment,
                      if isFragment && |ids| >= 5 then Cbor.GetUnsignedInteger(ids[4]) else 0)
  }

  /** `BundleStatusReport::FromCbor`. */
  function ReportFromCbor(buffer: seq<uint8>): (r: Option<StatusReport>)
    ensures r.Some? <==> Cbor.Decode(buffer).Some? && ReportShape(Cbor.Decode(buffer).value)
  {
    match Cbor.Decode(buffer)
    case None => None
    case Some(v) => ReportFromCborValue(v)
  }

  /** `AdministrativeRecord::FromCbor`: dispatch on the record type. A status
      report is decoded from the same buffer; custody signals and unknown
      types give nothing. */
  function FromCbor(buffer: seq<uint8>): (r: Option<AdministrativeRecord>)
    ensures r.Some? ==> Cbor.Decode(buffer).Some? && ReportShape(Cbor.Decode(buffer).value)
  {
    match Cbor.Decode(buffer)
    case None => None
    case Some(v) =>
      if !v.Array? || |v.items| < 2 then None
      else
        var recordType := Cbor.GetUnsignedInteger(v.items[0]);
        if recordType == BUNDLE_STATUS_REPORT then
          match ReportFromCbor(buffer)
          case None => None
          case Some(report) => Some(StatusReportRecord(report))
        else None
  }

  /** The record decoder yields a record exactly when the report decoder
      yields a report, and then it is that report. */
  lemma FromCborIsReportFromCbor(buffer: seq<uint8>)
    ensures FromCbor(buffer).Some? <==> ReportFromCbor(buffer).Some?
    ensures FromCbor(buffer).Some? ==> FromCbor(buffer).value.report == ReportFromCbor(buffer).value
  {
  }

  /** A custody signal is never decoded. */
  lemma CustodySignalRejected(buffer: seq<uint8>)
    requires Cbor.Decode(buffer).Some? && Cbor.Decode(buffer).value.Array?
    requires |Cbor.Decode(buffer).value.items| >= 2
    requires Cbor.Decode(buffer).value.items[0] == Cbor.Unsigned(CUSTODY_SIGNAL)
    ensures FromCbor(buffer) == None
  {
  }

  // Round trip

  /** What a report's wire form keeps: the seconds of the creation time, the
      offset of fragments only, the source node (normalised by the endpoint
      constructor) standing for the subject's source too, and the times that
      are flagged, positive and whole seconds. */
  function Kept(r: StatusReport): StatusReport {
    var source := Endpoint.Make(r.sourceNode.uri);
    var id := r.refBundle;
    StatusReport(r.flags, r.reason,
      BundleId.BundleId(source, DtnTime.DtnTime(id.timestamp.seconds, 0), id.sequenceNumber,
                        id.isFragment, if id.isFragment then id.fragmentOffset else 0),
      source,
      KeptTime(r.flags, BUNDLE_RECEIVED, r.receiveTime),
      KeptTime(r.flags, BUNDLE_FORWARDED, r.forwardTime),
      KeptTime(r.flags, BUNDLE_DELIVERED, r.deliveryTime),
      KeptTime(r.flags, BUNDLE_DELETED, r.deletionTime))
  }

  function KeptTime(flags: bv64, flag: bv64, t: Option<DtnTime.DtnTime>): Option<DtnTime.DtnTime> {
    if flags & flag != 0 && t.Some? && t.value.seconds > 0 then Some(DtnTime.DtnTime(t.value.seconds, 0))
    else None
  }

  /** The report's wire form is a well-formed CBOR value when its source URI
      is a C++ string. */
  lemma ToCborValueWellFormed(r: StatusReport)
    requires Endpoint.IsCppString(r.sourceNode.uri)
    ensures Cbor.WellFormed(ToCborValue(r))
  {
    var id := IdValue(r);
    assert Cbor.WellFormed(id);
    var v := ToCborValue(r);
    assert Cbor.WellFormed(v.items[1]);
  }

  /** A time slot decodes to what the wire form keeps of the time. */
  lemma SlotDecodes(r: StatusReport, flag: bv64, t: Option<DtnTime.DtnTime>)
    ensures DecodeTime(r.flags, flag, TimeSlot(r, flag, t)) == KeptTime(r.flags, flag, t)
  {
  }

  /** The value-level round trip: the decoder reads back every field the
      encoder writes. */
  lemma ValueRoundTrip(r: StatusReport)
    ensures ReportFromCborValue(ToCborValue(r)) == Some(Kept(r))
  {
    var v := ToCborValue(r);
    assert v.items[1].items[2] == IdValue(r);
    ReadBack(r);
  }

  /** Reading the items the encoder writes gives what the wire form keeps. */
  lemma ReadBack(r: StatusReport)
    ensures |ToCborValue(r).items[1].items| == 7 && |IdValue(r).items| >= 4
    ensures Read(ToCborValue(r).items[1].items, IdValue(r).items) == Kept(r)
  {
    FlagsRoundTrip(r.flags);
    IdReadBack(r);
    SlotDecodes(r, BUNDLE_RECEIVED, r.receiveTime);
    SlotDecodes(r, BUNDLE_FORWARDED, r.forwardTime);
    SlotDecodes(r, BUNDLE_DELIVERED, r.deliveryTime);
    SlotDecodes(r, BUNDLE_DELETED, r.deletionTime);
  }

  lemma FlagsRoundTrip(f: bv64)
    ensures (f as int) as bv64 == f
  {
  }

  /** The identifier items read back as the kept subject. */
  lemma IdReadBack(r: StatusReport)
    ensures |IdValue(r).items| >= 4 && ReadId(IdValue(r).items) == Kept(r).refBundle
  {
    var ids := IdValue(r).items;
    assert Cbor.GetTextString(ids[0]) == r.sourceNode.uri;
    assert (Cbor.GetUnsignedInteger(ids[3]) != 0) == r.refBundle.isFragment;
  }

  /** Decoding the encoding of any report gives back what the wire form
      keeps of it. */
  lemma RoundTrip(r: StatusReport)
    requires Endpoint.IsCppString(r.sourceNode.uri)
    ensures ReportFromCbor(ToCbor(r)) == Some(Kept(r))
  {
    ToCborValueWellFormed(r);
    Cbor.DecodeOfEncode(ToCborValue(r));
    ValueRoundTrip(r);
  }

  /** A report survives encoding unchanged exactly when the wire form can
      express it. */
  lemma KeptIffFaithful(r: StatusReport)
    ensures Kept(r) == r <==> Faithful(r)
  {
    if Faithful(r) {
      Endpoint.MakeOfWellFormed(r.sourceNode);
    }
  }

  /** Faithful reports round-trip exactly, and every decoded report is
      faithful, so decoding is a left inverse of encoding on them. */
  lemma FaithfulRoundTrip(r: StatusReport)
    requires Faithful(r) && Endpoint.IsCppString(r.sourceNode.uri)
    ensures ReportFromCbor(ToCbor(r)) == Some(r)
    ensures FromCbor(ToCbor(r)) == Some(StatusReportRecord(r))
  {
    RoundTrip(r);
    KeptIffFaithful(r);
    FromCborIsReportFromCbor(ToCbor(r));
  }

  // Reports about a bundle

  /** A report with one event flag about bundle `b`, as the factory functions
      build it before recording the time. */
  function ReportAbout(b: B.Bundle, flag: bv64, reason: uint64): StatusReport {
    NewReport(flag, reason, B.GetId(b), b.primary.source)
  }

  /** `CreateReceivedReport`, with the clock reading `now` passed in. */
  function CreateReceivedReport(b: B.Bundle, now: DtnTime.DtnTime): (r: StatusReport)
    ensures Announces(r, BUNDLE_RECEIVED, b, now) && r.reason == NO_INFORMATION
  {
    ReportAbout(b, BUNDLE_RECEIVED, NO_INFORMATION).(receiveTime := Some(now))
  }

  /** `CreateForwardedReport`. */
  function CreateForwardedReport(b: B.Bundle, now: DtnTime.DtnTime): (r: StatusReport)
    ensures Announces(r, BUNDLE_FORWARDED, b, now) && r.reason == NO_INFORMATION
  {
    ReportAbout(b, BUNDLE_FORWARDED, NO_INFORMATION).(forwardTime := Some(now))
  }

  /** `CreateDeliveredReport`. */
  function CreateDeliveredReport(b: B.Bundle, now: DtnTime.DtnTime): (r: StatusReport)
    ensures Announces(r, BUNDLE_DELIVERED, b, now) && r.reason == NO_INFORMATION
  {
    ReportAbout(b, BUNDLE_DELIVERED, NO_INFORMATION).(deliveryTime := Some(now))
  }

  /** `CreateDeletedReport`: the caller's reason code is kept. */
  function CreateDeletedReport(b: B.Bundle, reason: uint64, now: DtnTime.DtnTime): (r: StatusReport)
    ensures Announces(r, BUNDLE_DELETED, b, now) && r.reason == reason
  {
    ReportAbout(b, BUNDLE_DELETED, reason).(deletionTime := Some(now))
  }

  /** The one event flag among the four that is set. */
  predicate OnlyFlag(r: StatusReport, flag: bv64) {
    (HasStatusFlag(r, BUNDLE_RECEIVED) <==> flag == BUNDLE_RECEIVED) &&
    (HasStatusFlag(r, BUNDLE_FORWARDED) <==> flag == BUNDLE_FORWARDED) &&
    (HasStatusFlag(r, BUNDLE_DELIVERED) <==> flag == BUNDLE_DELIVERED) &&
    (HasStatusFlag(r, BUNDLE_DELETED) <==> flag == BUNDLE_DELETED) &&
    !HasStatusFlag(r, ACKNOWLEDGED_BY_CUSTODIAN)
  }

  /** `r` reports event `flag` of bundle `b` at time `t`: only that flag is
      set, the subject is `b`'s identifier and source, and only that event's
      time is recorded. */
  predicate Announces(r: StatusReport, flag: bv64, b: B.Bundle, t: DtnTime.DtnTime) {
    OnlyFlag(r, flag) &&
    r.refBundle == B.GetId(b) && r.sourceNode == b.primary.source &&
    TimeOf(r, flag) == Some(t) &&
    (flag != BUNDLE_RECEIVED ==> r.receiveTime.None?) &&
    (flag != BUNDLE_FORWARDED ==> r.forwardTime.None?) &&
    (flag != BUNDLE_DELIVERED ==> r.deliveryTime.None?) &&
    (flag != BUNDLE_DELETED ==> r.deletionTime.None?)
  }

  /** What a receiver learns from the encoding of a report about `b`: the
      same single flag and reason, an identifier equal to `b`'s, and the
      event time when it is a positive whole second. */
  predicate Learns(d: Option<StatusReport>, r: StatusReport, flag: bv64, b: B.Bundle, t: DtnTime.DtnTime) {
    d.Some? && OnlyFlag(d.value, flag) && d.value.reason == r.reason &&
    BundleId.Equal(d.value.refBundle, B.GetId(b)) &&
    d.value.sourceNode == b.primary.source &&
    TimeOf(d.value, flag) == (if t.seconds > 0 then Some(t) else None)
  }

  /** Every factory report about a bundle with a well-formed source and a
      whole-second creation time decodes to a report identifying that bundle
      and carrying the event time. */
  lemma CreatedReportsDecode(b: B.Bundle, reason: uint64, now: DtnTime.DtnTime)
    requires Endpoint.WellFormed(b.primary.source) && Endpoint.IsCppString(b.primary.source.uri)
    requires b.primary.creation.nanoseconds == 0 && now.nanoseconds == 0
    ensures Learns(ReportFromCbor(ToCbor(CreateReceivedReport(b, now))),
                   CreateReceivedReport(b, now), BUNDLE_RECEIVED, b, now)
    ensures Learns(ReportFromCbor(ToCbor(CreateForwardedReport(b, now))),
                   CreateForwardedReport(b, now), BUNDLE_FORWARDED, b, now)
    ensures Learns(ReportFromCbor(ToCbor(CreateDeliveredReport(b, now))),
                   CreateDeliveredReport(b, now), BUNDLE_DELIVERED, b, now)
    ensures Learns(ReportFromCbor(ToCbor(CreateDeletedReport(b, reason, now))),
                   CreateDeletedReport(b, reason, now), BUNDLE_DELETED, b, now)
  {
    Endpoint.MakeOfWellFormed(b.primary.source);
    RoundTrip(CreateReceivedReport(b, now));
    RoundTrip(CreateForwardedReport(b, now));
    RoundTrip(CreateDeliveredReport(b, now));
    RoundTrip(CreateDeletedReport(b, reason, now));
  }
}

/** Bundles (`bundle.cc`, section 4.3 of RFC 9171): a primary block and a
    sequence of canonical blocks, with block numbering, lookup and removal by
    type, payload access, CRCs over all blocks, the CBOR array of blocks, and
    the simple payload split of `Bundle::Fragment`. */
module Bundle {
  import opened Wrappers
  import opened BoundedInts
  import opened BlockTypeCodes
  import Cbor
  import Endpoint
  import DtnTime
  import BundleId
  import Primary = PrimaryBlock
  import Canonical = CanonicalBlock

  type Block = Canonical.CanonicalBlock

  datatype Bundle = Bundle(primary: Primary.PrimaryBlock, blocks: seq<Block>)

  const UINT64_MAX: nat := TWO_TO_THE_64 - 1

  /** `IsFragment` and `IsAdministrativeRecord` of the primary block. */
  predicate IsFragment(b: Bundle) {
    Primary.IsFragment(b.primary)
  }

  predicate IsAdministrativeRecord(b: Bundle) {
    Primary.HasFlag(b.primary, Primary.PAYLOAD_IS_AN_ADMINISTRATIVE_RECORD)
  }

  /** `GetId`: source, creation time, sequence number and fragment offset. */
  function GetId(b: Bundle): (id: BundleId.BundleId)
    ensures id.isFragment <==> IsFragment(b)
    ensures id.source == b.primary.source && id.timestamp == b.primary.creation
    ensures id.sequenceNumber == b.primary.sequenceNumber && id.fragmentOffset == b.primary.fragmentOffset
  {
    BundleId.BundleId(b.primary.source, b.primary.creation, b.primary.sequenceNumber,
                      IsFragment(b), b.primary.fragmentOffset)
  }

  // Block numbering

  /** The largest block number in use, 0 when there are no blocks. */
  function MaxNumber(blocks: seq<Block>): (m: uint64)
    ensures forall i :: 0 <= i < |blocks| ==> blocks[i].number <= m
    ensures |blocks| == 0 ==> m == 0
    ensures |blocks| > 0 ==> exists i :: 0 <= i < |blocks| && blocks[i].number == m
  {
    if |blocks| == 0 then 0
    else
      var rest := MaxNumber(blocks[1..]);
      assert forall i :: 1 <= i < |blocks| ==> blocks[i] == blocks[1..][i - 1];
      if blocks[0].number >= rest then blocks[0].number else rest
  }

  /** `AddBlock`: the block is appended; a block numbered 0 first gets one
      more than the largest number in use, computed in `uint64_t`. */
  function AddBlock(b: Bundle, block: Block): (r: Bundle)
    ensures r.primary == b.primary
    ensures |r.blocks| == |b.blocks| + 1 && r.blocks[..|b.blocks|] == b.blocks
    ensures r.blocks[|b.blocks|] == block.(number := r.blocks[|b.blocks|].number)
    ensures block.number != 0 ==> r.blocks[|b.blocks|] == block
    ensures block.number == 0 && |b.blocks| == 0 ==> r.blocks[0].number == 1
    ensures block.number == 0 && MaxNumber(b.blocks) < UINT64_MAX ==>
              forall i :: 0 <= i < |b.blocks| ==> b.blocks[i].number < r.blocks[|b.blocks|].number
    ensures block.number == 0 && MaxNumber(b.blocks) == UINT64_MAX ==> r.blocks[|b.blocks|].number == 0
  {
    var numbered := if block.number == 0 then block.(number := (MaxNumber(b.blocks) + 1) % TWO_TO_THE_64) else block;
    assert (b.blocks + [numbered])[..|b.blocks|] == b.blocks;
    b.(blocks := b.blocks + [numbered])
  }

  /** `AddBlock` applied to each block in turn. */
  function AddBlocks(b: Bundle, blocks: seq<Block>): (r: Bundle)
    ensures r.primary == b.primary
    ensures |r.blocks| == |b.blocks| + |blocks| && r.blocks[..|b.blocks|] == b.blocks
    ensures forall j :: 0 <= j < |blocks| ==>
              r.blocks[|b.blocks| + j] == blocks[j].(number := r.blocks[|b.blocks| + j].number)
    ensures forall j :: 0 <= j < |blocks| && blocks[j].number != 0 ==> r.blocks[|b.blocks| + j] == blocks[j]
    decreases |blocks|
  {
    if |blocks| == 0 then b
    else
      var first := AddBlock(b, blocks[0]);
      var r := AddBlocks(first, blocks[1..]);
      assert r.blocks[..|b.blocks|] == r.blocks[..|first.blocks|][..|b.blocks|];
      assert forall j :: 1 <= j < |blocks| ==> blocks[j] == blocks[1..][j - 1] && |b.blocks| + j == |first.blocks| + (j - 1);
      assert r.blocks[|b.blocks|] == first.blocks[|b.blocks|];
      r
  }

  // Lookup and removal by type

  /** Position of the first block of a type, `|blocks|` when there is none. */
  function FirstOfType(blocks: seq<Block>, t: uint64): (k: nat)
    ensures k <= |blocks|
    ensures k < |blocks| ==> blocks[k].blockType == t
    ensures forall i :: 0 <= i < k ==> blocks[i].blockType != t
  {
    if |blocks| == 0 then 0
    else if blocks[0].blockType == t then 0
    else
      var k := FirstOfType(blocks[1..], t);
      assert forall i :: 1 <= i < |blocks| ==> blocks[i] == blocks[1..][i - 1];
      1 + k
  }

  /** `GetBlockByType`: the first block of the type, if any. */
  function GetBlockByType(b: Bundle, t: uint64): (r: Option<Block>)
    ensures r.None? <==> forall i :: 0 <= i < |b.blocks| ==> b.blocks[i].blockType != t
    ensures r.Some? ==> r.value.blockType == t && r.value in b.blocks
    ensures r.Some? ==> r.value == b.blocks[FirstOfType(b.blocks, t)]
  {
    var k := FirstOfType(b.blocks, t);
    if k < |b.blocks| then Some(b.blocks[k]) else None
  }

  /** The blocks of a type, in order. */
  function OfType(blocks: seq<Block>, t: uint64): seq<Block> {
    if |blocks| == 0 then []
    else if blocks[0].blockType == t then [blocks[0]] + OfType(blocks[1..], t)
    else OfType(blocks[1..], t)
  }

  /** The blocks listed are of the type and among the blocks, and every block
      of the type is listed. */
  lemma {:induction false} OfTypeMembers(blocks: seq<Block>, t: uint64)
    ensures forall i :: 0 <= i < |OfType(blocks, t)| ==> OfType(blocks, t)[i].blockType == t && OfType(blocks, t)[i] in blocks
    ensures forall i :: 0 <= i < |blocks| && blocks[i].blockType == t ==> blocks[i] in OfType(blocks, t)
  {
    if |blocks| > 0 {
      OfTypeMembers(blocks[1..], t);
      assert forall i :: 1 <= i < |blocks| ==> blocks[i] == blocks[1..][i - 1];
    }
  }

  lemma {:induction false} OfTypeConcat(xs: seq<Block>, ys: seq<Block>, t: uint64)
    ensures OfType(xs + ys, t) == OfType(xs, t) + OfType(ys, t)
  {
    if |xs| > 0 {
      assert (xs + ys)[0] == xs[0];
      assert (xs + ys)[1..] == xs[1..] + ys;
      OfTypeConcat(xs[1..], ys, t);
    } else {
      assert xs + ys == ys;
    }
  }

  /** A prefix free of a type contributes no blocks of that type. */
  lemma {:induction false} OfTypeNone(xs: seq<Block>, t: uint64)
    requires forall i :: 0 <= i < |xs| ==> xs[i].blockType != t
    ensures OfType(xs, t) == []
  {
    if |xs| > 0 {
      OfTypeNone(xs[1..], t);
    }
  }

  /** `GetBlocksByType`: every block of the type, in order. */
  function GetBlocksByType(b: Bundle, t: uint64): (r: seq<Block>)
    ensures forall i :: 0 <= i < |r| ==> r[i].blockType == t && r[i] in b.blocks
    ensures forall i :: 0 <= i < |b.blocks| && b.blocks[i].blockType == t ==> b.blocks[i] in r
  {
    OfTypeMembers(b.blocks, t);
    OfType(b.blocks, t)
  }

  /** The first block `GetBlockByType` finds is the first of those
      `GetBlocksByType` lists. */
  lemma FirstOfBlocksByType(b: Bundle, t: uint64)
    ensures GetBlockByType(b, t).None? <==> GetBlocksByType(b, t) == []
    ensures GetBlockByType(b, t).Some? ==> GetBlocksByType(b, t)[0] == GetBlockByType(b, t).value
  {
    var k := FirstOfType(b.blocks, t);
    assert b.blocks == b.blocks[..k] + b.blocks[k..];
    OfTypeConcat(b.blocks[..k], b.blocks[k..], t);
    OfTypeNone(b.blocks[..k], t);
  }

  /** `RemoveBlockByType`: removes the first block of the type, keeping the
      order of the others, and reports whether there was one. */
  function RemoveBlockByType(b: Bundle, t: uint64): (r: (Bundle, bool))
    ensures r.1 <==> GetBlockByType(b, t).Some?
    ensures !r.1 ==> r.0 == b
    ensures r.0.primary == b.primary
    ensures r.1 ==> |r.0.blocks| == |b.blocks| - 1
    ensures r.1 ==> multiset(r.0.blocks) + multiset{GetBlockByType(b, t).value} == multiset(b.blocks)
  {
    var k := FirstOfType(b.blocks, t);
    if k < |b.blocks| then
      assert b.blocks == b.blocks[..k] + [b.blocks[k]] + b.blocks[k + 1..];
      (b.(blocks := b.blocks[..k] + b.blocks[k + 1..]), true)
    else (b, false)
  }

  /** Removal takes away exactly the first block of the type: the blocks of
      that type lose their first, the blocks of every other type stay. */
  lemma RemoveOnlyFirstMatch(b: Bundle, t: uint64, other: uint64)
    requires GetBlockByType(b, t).Some?
    ensures GetBlocksByType(RemoveBlockByType(b, t).0, t) == GetBlocksByType(b, t)[1..]
    ensures other != t ==> GetBlocksByType(RemoveBlockByType(b, t).0, other) == GetBlocksByType(b, other)
  {
    var k := FirstOfType(b.blocks, t);
    assert RemoveBlockByType(b, t).0.blocks == b.blocks[..k] + b.blocks[k + 1..];
    RemoveAt(b.blocks, k, t, t);
    RemoveAt(b.blocks, k, t, other);
  }

  /** Dropping the first block of type `t` from a sequence. */
  lemma RemoveAt(blocks: seq<Block>, k: nat, t: uint64, u: uint64)
    requires k < |blocks| && blocks[k].blockType == t
    requires forall i :: 0 <= i < k ==> blocks[i].blockType != t
    ensures u == t ==> |OfType(blocks, u)| > 0
    ensures u == t ==> OfType(blocks[..k] + blocks[k + 1..], u) == OfType(blocks, u)[1..]
    ensures u != t ==> OfType(blocks[..k] + blocks[k + 1..], u) == OfType(blocks, u)
  {
    if u == t {
      RemoveAtSameType(blocks, k, t);
    } else {
      RemoveAtOtherType(blocks, k, u);
    }
  }

  lemma RemoveAtSameType(blocks: seq<Block>, k: nat, t: uint64)
    requires k < |blocks| && blocks[k].blockType == t
    requires forall i :: 0 <= i < k ==> blocks[i].blockType != t
    ensures OfType(blocks, t) == [blocks[k]] + OfType(blocks[..k] + blocks[k + 1..], t)
  {
    OfTypePrefixNone(blocks, k, t);
    OfTypeSplitAt(blocks, k, t);
    OfTypeConcat(blocks[..k], blocks[k + 1..], t);
  }

  lemma OfTypePrefixNone(blocks: seq<Block>, k: nat, t: uint64)
    requires k <= |blocks|
    requires forall i :: 0 <= i < k ==> blocks[i].blockType != t
    ensures OfType(blocks[..k], t) == []
  {
    OfTypeNone(blocks[..k], t);
  }

  lemma RemoveAtOtherType(blocks: seq<Block>, k: nat, u: uint64)
    requires k < |blocks| && blocks[k].blockType != u
    ensures OfType(blocks, u) == OfType(blocks[..k] + blocks[k + 1..], u)
  {
    OfTypeSplitAt(blocks, k, u);
    OfTypeConcat(blocks[..k], blocks[k + 1..], u);
  }

  /** The blocks of type `u` before position `k`, at it, and after it. */
  lemma OfTypeSplitAt(blocks: seq<Block>, k: nat, u: uint64)
    requires k < |blocks|
    ensures OfType(blocks, u) ==
              OfType(blocks[..k], u) + (if blocks[k].blockType == u then [blocks[k]] else []) + OfType(blocks[k + 1..], u)
  {
    var pre, post := blocks[..k], blocks[k + 1..];
    assert blocks == pre + ([blocks[k]] + post);
    OfTypeConcat(pre, [blocks[k]] + post, u);
    assert ([blocks[k]] + post)[1..] == post;
  }

  // Payload

  /** `GetPayload`: the data of the first payload block, or nothing. */
  function GetPayload(b: Bundle): seq<uint8> {
    match GetBlockByType(b, PAYLOAD_BLOCK)
    case Some(block) => block.data
    case None => []
  }

  /** Changing blocks without changing their types keeps first positions. */
  lemma FirstOfTypeSameTypes(xs: seq<Block>, ys: seq<Block>, t: uint64)
    requires |xs| == |ys|
    requires forall i :: 0 <= i < |xs| ==> xs[i].blockType == ys[i].blockType
    ensures FirstOfType(xs, t) == FirstOfType(ys, t)
  {
  }

  /** `SetPayload`: the first payload block gets the data; without one, a
      new payload block with CRC-32 is added. */
  function SetPayload(b: Bundle, payload: seq<uint8>): (r: Bundle)
    ensures GetPayload(r) == payload
    ensures r.primary == b.primary
    ensures GetBlockByType(b, PAYLOAD_BLOCK).Some? ==> |r.blocks| == |b.blocks|
    ensures GetBlockByType(b, PAYLOAD_BLOCK).None? ==>
              |r.blocks| == |b.blocks| + 1 && r.blocks[..|b.blocks|] == b.blocks &&
              r.blocks[|b.blocks|].crcType == CRC_32
  {
    var k := FirstOfType(b.blocks, PAYLOAD_BLOCK);
    if k < |b.blocks| then
      var r := b.(blocks := b.blocks[k := b.blocks[k].(data := payload)]);
      FirstOfTypeSameTypes(b.blocks, r.blocks, PAYLOAD_BLOCK);
      r
    else
      var r := AddBlock(b, Canonical.NewPayloadBlock(payload).(crcType := CRC_32));
      assert FirstOfType(r.blocks, PAYLOAD_BLOCK) == |b.blocks|;
      r
  }

  // CRC

  /** `CheckCRC`: the primary block and every canonical block pass. */
  predicate CheckCRC(b: Bundle) {
    Primary.CheckCRC(b.primary) && forall i :: 0 <= i < |b.blocks| ==> Canonical.CheckCRC(b.blocks[i])
  }

  /** `CalculateCRC`: the CRC of every block is computed; only CRC values
      change. */
  function CalculateCRC(b: Bundle): (r: Bundle)
    ensures CheckCRC(r)
    ensures r.primary == b.primary.(crc := r.primary.crc)
    ensures |r.blocks| == |b.blocks|
    ensures forall i :: 0 <= i < |b.blocks| ==> r.blocks[i] == b.blocks[i].(crc := r.blocks[i].crc)
  {
    Bundle(Primary.CalculateCRC(b.primary),
           seq(|b.blocks|, i requires 0 <= i < |b.blocks| => Canonical.CalculateCRC(b.blocks[i])))
  }

  /** Computing the CRCs keeps the payload. */
  lemma CalculateCRCKeepsPayload(b: Bundle)
    ensures GetPayload(CalculateCRC(b)) == GetPayload(b)
  {
    FirstOfTypeSameTypes(b.blocks, CalculateCRC(b).blocks, PAYLOAD_BLOCK);
  }

  // MustNewBundle

  /** `MustNewBundle`: a CRC-32 primary block with sequence number 0, no
      flags and report-to "dtn:none", and one CRC-32 payload block numbered
      1, with all CRCs computed. */
  function MustNewBundle(source: string, destination: string, creation: DtnTime.DtnTime,
                         lifetimeMs: uint64, payload: seq<uint8>): (r: Bundle)
    ensures !GetId(r).isFragment
    ensures CheckCRC(r)
    ensures GetPayload(r) == payload
    ensures r.primary.sequenceNumber == 0 && r.primary.reportTo == Endpoint.DTN_NONE
    ensures r.primary.source == Endpoint.Make(source) && r.primary.destination == Endpoint.Make(destination)
    ensures r.primary.crcType == CRC_32 && |r.primary.crc| == 4
    ensures |r.blocks| == 1 && r.blocks[0].number == 1 && r.blocks[0].crcType == CRC_32 && |r.blocks[0].crc| == 4
  {
    var p := Primary.PrimaryBlock(Primary.DEFAULT_VERSION, 0, CRC_32, Endpoint.Make(destination),
                                  Endpoint.Make(source), Endpoint.DTN_NONE, creation, 0, lifetimeMs, 0, 0, []);
    var unsealed := AddBlock(Bundle(p, []), Canonical.NewPayloadBlock(payload).(crcType := CRC_32));
    assert GetPayload(unsealed) == payload by {
      assert FirstOfType(unsealed.blocks, PAYLOAD_BLOCK) == 0;
    }
    CalculateCRCKeepsPayload(unsealed);
    assert !Primary.IsFragment(p) by {
      assert p.flags & Primary.BUNDLE_IS_A_FRAGMENT == 0;
    }
    CalculateCRC(unsealed)
  }

  // CBOR

  /** The CBOR values of the canonical blocks, in order. */
  function BlockValues(blocks: seq<Block>): (vs: seq<Cbor.CborValue>)
    ensures |vs| == |blocks|
    ensures forall i :: 0 <= i < |blocks| ==> vs[i] == Canonical.ToCborValue(blocks[i])
  {
    seq(|blocks|, i requires 0 <= i < |blocks| => Canonical.ToCborValue(blocks[i]))
  }

  /** `ToCbor`, as a CBOR value: the array of the primary block's array
      followed by each canonical block's array. */
  function ToCborValue(b: Bundle): Cbor.CborValue {
    Cbor.Array([Primary.ToCborValue(b.primary)] + BlockValues(b.blocks))
  }

  function ToCbor(b: Bundle): seq<uint8> {
    Cbor.Encode(ToCborValue(b))
  }

  /** Each later element that reads as a canonical block is added with
      `AddBlock`; the others are skipped. */
  function AddDecodedBlocks(b: Bundle, vs: seq<Cbor.CborValue>): (r: Bundle)
    ensures r.primary == b.primary
    ensures |b.blocks| <= |r.blocks| <= |b.blocks| + |vs|
    decreases |vs|
  {
    if |vs| == 0 then b
    else
      var next := match Canonical.FromCborValue(vs[0])
        case Some(block) => AddBlock(b, block)
        case None => b;
      AddDecodedBlocks(next, vs[1..])
  }

  /** `FromCbor`, on a decoded value: a non-empty array whose first element
      is a readable primary block. */
  function FromCborValue(v: Cbor.CborValue): (r: Option<Bundle>)
    ensures !v.Array? || |v.items| == 0 ==> r.None?
    ensures v.Array? && |v.items| > 0 && Primary.FromCborValue(v.items[0]).None? ==> r.None?
    ensures r.Some? ==> Some(r.value.primary) == Primary.FromCborValue(v.items[0])
    ensures r.Some? ==> |r.value.blocks| <= |v.items| - 1
  {
    if !v.Array? || |v.items| == 0 then None
    else if !v.items[0].Array? then None
    else match Primary.FromCborValue(v.items[0])
      case None => None
      case Some(p) => Some(AddDecodedBlocks(Bundle(p, []), v.items[1..]))
  }

  function FromCbor(buffer: seq<uint8>): Option<Bundle> {
    match Cbor.Decode(buffer)
    case None => None
    case Some(v) => FromCborValue(v)
  }

  /** A canonical block that the round trip returns unchanged. */
  predicate BlockEncodable(block: Block) {
    Canonical.Encodable(block) && block.number != 0
  }

  /** One step of the reader on the values of encodable blocks. */
  lemma AddDecodedFirst(b: Bundle, blocks: seq<Block>)
    requires |blocks| > 0 && BlockEncodable(blocks[0])
    ensures AddDecodedBlocks(b, BlockValues(blocks)) == AddDecodedBlocks(b.(blocks := b.blocks + [blocks[0]]), BlockValues(blocks[1..]))
  {
    var vs := BlockValues(blocks);
    Canonical.CborValueRoundTrip(blocks[0]);
    assert Canonical.FromCborValue(vs[0]) == Some(blocks[0]);
    assert vs[1..] == BlockValues(blocks[1..]);
  }

  lemma AppendFirst(xs: seq<Block>, ys: seq<Block>)
    requires |ys| > 0
    ensures xs + [ys[0]] + ys[1..] == xs + ys
  {
    assert [ys[0]] + ys[1..] == ys;
  }

  lemma {:induction false} AddDecodedBlocksOfEncoded(b: Bundle, blocks: seq<Block>)
    requires forall i :: 0 <= i < |blocks| ==> BlockEncodable(blocks[i])
    ensures AddDecodedBlocks(b, BlockValues(blocks)) == b.(blocks := b.blocks + blocks)
    decreases |blocks|
  {
    if |blocks| == 0 {
      assert b.blocks + blocks == b.blocks;
    } else {
      AddDecodedFirst(b, blocks);
      AddDecodedBlocksOfEncoded(b.(blocks := b.blocks + [blocks[0]]), blocks[1..]);
      AppendFirst(b.blocks, blocks);
    }
  }

  /** A bundle whose blocks all survive their own round trips, and whose
      blocks are numbered, reads back unchanged from its CBOR value. */
  predicate Encodable(b: Bundle) {
    Primary.Encodable(b.primary) && forall i :: 0 <= i < |b.blocks| ==> BlockEncodable(b.blocks[i])
  }

  lemma CborValueRoundTrip(b: Bundle)
    requires Encodable(b)
    ensures FromCborValue(ToCborValue(b)) == Some(b)
  {
    var v := ToCborValue(b);
    assert v.items[0] == Primary.ToCborValue(b.primary);
    Primary.CborValueRoundTrip(b.primary);
    assert Primary.Carried(b.primary) == b.primary;
    assert v.items[1..] == BlockValues(b.blocks);
    AddDecodedBlocksOfEncoded(Bundle(b.primary, []), b.blocks);
    assert [] + b.blocks == b.blocks;
  }

  predicate Representable(b: Bundle) {
    Primary.Representable(b.primary) && |b.blocks| < UINT64_MAX &&
    forall i :: 0 <= i < |b.blocks| ==> Canonical.Representable(b.blocks[i])
  }

  lemma ToCborValueWellFormed(b: Bundle)
    requires Representable(b)
    ensures Cbor.WellFormed(ToCborValue(b))
  {
    var vs := BlockValues(b.blocks);
    var items := [Primary.ToCborValue(b.primary)] + vs;
    assert ToCborValue(b) == Cbor.Array(items);
    Primary.ToCborValueWellFormed(b.primary);
    forall i | 0 <= i < |items| ensures Cbor.WellFormed(items[i]) {
      if i > 0 {
        assert items[i] == vs[i - 1] == Canonical.ToCborValue(b.blocks[i - 1]);
        Canonical.ToCborValueWellFormed(b.blocks[i - 1]);
      }
    }
  }

  /** `FromCbor(ToCbor(b))` gives back every encodable bundle. */
  lemma CborRoundTrip(b: Bundle)
    requires Encodable(b) && Representable(b)
    ensures FromCbor(ToCbor(b)) == Some(b)
  {
    ToCborValueWellFormed(b);
    Cbor.DecodeOfEncode(ToCborValue(b));
    CborValueRoundTrip(b);
  }

  // Bundle::Fragment

  /** Blocks other than the payload that carry the replicate flag. */
  function ReplicatedBlocks(blocks: seq<Block>): (r: seq<Block>)
    ensures forall i :: 0 <= i < |r| ==> r[i].blockType != PAYLOAD_BLOCK && Canonical.MustBeReplicated(r[i])
  {
    if |blocks| == 0 then []
    else
      var rest := ReplicatedBlocks(blocks[1..]);
      if blocks[0].blockType != PAYLOAD_BLOCK && Canonical.MustBeReplicated(blocks[0]) then [blocks[0]] + rest else rest
  }

  /** One piece: the primary block marked as a fragment with its offset and
      the total length, a payload block numbered 1 with the slice and the
      original payload block's CRC type, then the `extra` blocks, and CRCs. */
  function MakeFragment(b: Bundle, payloadBlock: Block, extra: seq<Block>, offset: nat, size: nat): (f: Bundle)
    requires offset + size <= |payloadBlock.data| < TWO_TO_THE_64
    ensures IsFragment(f) && CheckCRC(f)
    ensures f.primary.fragmentOffset == offset && f.primary.totalLength == |payloadBlock.data|
    ensures GetPayload(f) == payloadBlock.data[offset..offset + size]
  {
    var unsealed := Unsealed(b, payloadBlock, extra, offset, size);
    CalculateCRCKeepsPayload(unsealed);
    CalculateCRC(unsealed)
  }

  /** A fragment before its CRCs are computed. */
  function Unsealed(b: Bundle, payloadBlock: Block, extra: seq<Block>, offset: nat, size: nat): (u: Bundle)
    requires offset + size <= |payloadBlock.data| < TWO_TO_THE_64
    ensures u.primary == Primary.SetFlag(b.primary, Primary.BUNDLE_IS_A_FRAGMENT, true)
                           .(fragmentOffset := offset, totalLength := |payloadBlock.data|)
    ensures Primary.IsFragment(u.primary)
    ensures |u.blocks| == 1 + |extra|
    ensures u.blocks[0] == Canonical.NewPayloadBlock(payloadBlock.data[offset..offset + size]).(crcType := payloadBlock.crcType)
    ensures forall j :: 0 <= j < |extra| ==> u.blocks[1 + j] == extra[j].(number := u.blocks[1 + j].number)
    ensures forall j :: 0 <= j < |extra| && extra[j].number != 0 ==> u.blocks[1 + j] == extra[j]
    ensures GetPayload(u) == payloadBlock.data[offset..offset + size]
  {
    var p := Primary.SetFlag(b.primary, Primary.BUNDLE_IS_A_FRAGMENT, true)
               .(fragmentOffset := offset, totalLength := |payloadBlock.data|);
    var piece := Canonical.NewPayloadBlock(payloadBlock.data[offset..offset + size]).(crcType := payloadBlock.crcType);
    var first := AddBlock(Bundle(p, []), piece);
    var unsealed := AddBlocks(first, extra);
    assert unsealed.blocks[0] == piece;
    assert FirstOfType(unsealed.blocks, PAYLOAD_BLOCK) == 0;
    unsealed
  }

  /** The blocks of a fragment: the slice in a payload block with the
      original's CRC type, then the `extra` blocks as given apart from the
      number `AddBlock` gives a block numbered 0 and the CRC value. */
  lemma FragmentBlocks(b: Bundle, payloadBlock: Block, extra: seq<Block>, offset: nat, size: nat)
    requires offset + size <= |payloadBlock.data| < TWO_TO_THE_64
    ensures var f := MakeFragment(b, payloadBlock, extra, offset, size);
            |f.blocks| == 1 + |extra| &&
            f.blocks[0].blockType == PAYLOAD_BLOCK && f.blocks[0].crcType == payloadBlock.crcType &&
            f.primary == Primary.SetFlag(b.primary, Primary.BUNDLE_IS_A_FRAGMENT, true)
                           .(fragmentOffset := offset, totalLength := |payloadBlock.data|, crc := f.primary.crc) &&
            forall j :: 0 <= j < |extra| ==>
              f.blocks[1 + j] == extra[j].(number := f.blocks[1 + j].number, crc := f.blocks[1 + j].crc) &&
              (extra[j].number != 0 ==> f.blocks[1 + j].number == extra[j].number)
  {
    var u := Unsealed(b, payloadBlock, extra, offset, size);
    assert MakeFragment(b, payloadBlock, extra, offset, size) == CalculateCRC(u);
  }

  /** A slice of the payload: where it starts and how long it is. */
  datatype Piece = Piece(offset: nat, size: nat)

  /** The loop of `Bundle::Fragment` from `offset` on: slices of `step`
      bytes, the last one shorter when `step` does not divide the rest. */
  function Pieces(total: nat, step: nat, offset: nat): (ps: seq<Piece>)
    requires step > 0 && offset <= total
    ensures forall i :: 0 <= i < |ps| ==> 0 < ps[i].size <= step && ps[i].offset + ps[i].size <= total
    decreases total - offset
  {
    if offset >= total then []
    else
      var size := if step < total - offset then step else total - offset;
      var rest := Pieces(total, step, offset + size);
      assert forall i :: 1 <= i < |rest| + 1 ==> ([Piece(offset, size)] + rest)[i] == rest[i - 1];
      [Piece(offset, size)] + rest
  }

  /** Consecutive slices start `step` bytes apart, the first at `offset`. */
  lemma {:induction false} PiecesAdvance(total: nat, step: nat, offset: nat)
    requires step > 0 && offset <= total
    ensures var ps := Pieces(total, step, offset);
            (|ps| > 0 ==> ps[0].offset == offset) &&
            forall i :: 1 <= i < |ps| ==> ps[i].offset == ps[i - 1].offset + step
    decreases total - offset
  {
    var ps := Pieces(total, step, offset);
    if offset < total {
      var size := if step < total - offset then step else total - offset;
      var rest := Pieces(total, step, offset + size);
      assert ps == [Piece(offset, size)] + rest;
      PiecesAdvance(total, step, offset + size);
    }
  }

  /** Slices that advance by `step` start at multiples of it. */
  lemma {:induction false} OffsetOfPiece(ps: seq<Piece>, step: nat, offset: nat, i: nat)
    requires i < |ps|
    requires |ps| > 0 ==> ps[0].offset == offset
    requires forall k :: 1 <= k < |ps| ==> ps[k].offset == ps[k - 1].offset + step
    ensures ps[i].offset == offset + i * step
  {
    if i > 0 {
      OffsetOfPiece(ps, step, offset, i - 1);
      assert (i - 1) * step + step == i * step;
    }
  }

  /** The `i`th slice starts `i` steps after the first. */
  lemma PiecesOffsets(total: nat, step: nat, offset: nat)
    requires step > 0 && offset <= total
    ensures var ps := Pieces(total, step, offset);
            forall i :: 0 <= i < |ps| ==> ps[i].offset == offset + i * step
  {
    var ps := Pieces(total, step, offset);
    PiecesAdvance(total, step, offset);
    forall i | 0 <= i < |ps| ensures ps[i].offset == offset + i * step {
      OffsetOfPiece(ps, step, offset, i);
    }
  }

  /** Byte sequences joined in order. */
  function Concat(xs: seq<seq<uint8>>): seq<uint8> {
    if |xs| == 0 then [] else xs[0] + Concat(xs[1..])
  }

  /** The slices of `data` a sequence of pieces names. */
  function Slices(data: seq<uint8>, ps: seq<Piece>): (r: seq<seq<uint8>>)
    requires forall i :: 0 <= i < |ps| ==> ps[i].offset + ps[i].size <= |data|
    ensures |r| == |ps|
  {
    seq(|ps|, i requires 0 <= i < |ps| => data[ps[i].offset..ps[i].offset + ps[i].size])
  }

  /** The slices cover the data from `offset` on, in order, once. */
  lemma {:induction false} PiecesCover(data: seq<uint8>, step: nat, offset: nat)
    requires step > 0 && offset <= |data|
    ensures Concat(Slices(data, Pieces(|data|, step, offset))) == data[offset..]
    decreases |data| - offset
  {
    if offset < |data| {
      var size := if step < |data| - offset then step else |data| - offset;
      var rest := Pieces(|data|, step, offset + size);
      assert Pieces(|data|, step, offset) == [Piece(offset, size)] + rest;
      SlicesCons(data, Piece(offset, size), rest);
      PiecesCover(data, step, offset + size);
      SliceSplit(data, offset, offset + size);
      JoinSlices(Concat(Slices(data, Pieces(|data|, step, offset))), data[offset..offset + size],
                 Concat(Slices(data, rest)), data[offset + size..], data[offset..]);
    }
  }

  lemma SlicesCons(data: seq<uint8>, p: Piece, ps: seq<Piece>)
    requires p.offset + p.size <= |data|
    requires forall i :: 0 <= i < |ps| ==> ps[i].offset + ps[i].size <= |data|
    ensures Concat(Slices(data, [p] + ps)) == data[p.offset..p.offset + p.size] + Concat(Slices(data, ps))
  {
    assert Slices(data, [p] + ps)[1..] == Slices(data, ps);
  }

  /** Equal heads and tails make equal joins; kept apart so the slicing
      terms around it stay out of the step. */
  lemma JoinSlices(whole: seq<uint8>, head: seq<uint8>, tail: seq<uint8>, rest: seq<uint8>, data: seq<uint8>)
    requires whole == head + tail && tail == rest && data == head + rest
    ensures whole == data
  {
  }

  lemma SliceSplit(data: seq<uint8>, i: nat, j: nat)
    requires i <= j <= |data|
    ensures data[i..] == data[i..j] + data[j..]
  {
  }

  /** The payloads of a sequence of bundles. */
  function Payloads(fs: seq<Bundle>): (r: seq<seq<uint8>>)
    ensures |r| == |fs|
  {
    seq(|fs|, i requires 0 <= i < |fs| => GetPayload(fs[i]))
  }

  /** One fragment per piece. */
  function MakeFragments(b: Bundle, payloadBlock: Block, extra: seq<Block>, ps: seq<Piece>): (fs: seq<Bundle>)
    requires |payloadBlock.data| < TWO_TO_THE_64
    requires forall i :: 0 <= i < |ps| ==> ps[i].offset + ps[i].size <= |payloadBlock.data|
    ensures |fs| == |ps|
  {
    seq(|ps|, i requires 0 <= i < |ps| => MakeFragment(b, payloadBlock, extra, ps[i].offset, ps[i].size))
  }

  lemma MakeFragmentsSealed(b: Bundle, payloadBlock: Block, extra: seq<Block>, ps: seq<Piece>)
    requires |payloadBlock.data| < TWO_TO_THE_64
    requires forall i :: 0 <= i < |ps| ==> ps[i].offset + ps[i].size <= |payloadBlock.data|
    ensures forall i :: 0 <= i < |ps| ==>
              IsFragment(MakeFragments(b, payloadBlock, extra, ps)[i]) && CheckCRC(MakeFragments(b, payloadBlock, extra, ps)[i])
  {
    forall i | 0 <= i < |ps|
      ensures IsFragment(MakeFragments(b, payloadBlock, extra, ps)[i]) && CheckCRC(MakeFragments(b, payloadBlock, extra, ps)[i])
    {
      FragmentAt(b, payloadBlock, extra, ps, i);
    }
  }

  lemma MakeFragmentsPlaced(b: Bundle, payloadBlock: Block, extra: seq<Block>, ps: seq<Piece>)
    requires |payloadBlock.data| < TWO_TO_THE_64
    requires forall i :: 0 <= i < |ps| ==> ps[i].offset + ps[i].size <= |payloadBlock.data|
    ensures forall i :: 0 <= i < |ps| ==>
              MakeFragments(b, payloadBlock, extra, ps)[i].primary.fragmentOffset == ps[i].offset &&
              MakeFragments(b, payloadBlock, extra, ps)[i].primary.totalLength == |payloadBlock.data|
  {
    forall i | 0 <= i < |ps|
      ensures MakeFragments(b, payloadBlock, extra, ps)[i].primary.fragmentOffset == ps[i].offset
      ensures MakeFragments(b, payloadBlock, extra, ps)[i].primary.totalLength == |payloadBlock.data|
    {
      FragmentAt(b, payloadBlock, extra, ps, i);
    }
  }

  lemma MakeFragmentsPayloads(b: Bundle, payloadBlock: Block, extra: seq<Block>, ps: seq<Piece>)
    requires |payloadBlock.data| < TWO_TO_THE_64
    requires forall i :: 0 <= i < |ps| ==> ps[i].offset + ps[i].size <= |payloadBlock.data|
    ensures Payloads(MakeFragments(b, payloadBlock, extra, ps)) == Slices(payloadBlock.data, ps)
  {
    forall i | 0 <= i < |ps|
      ensures Payloads(MakeFragments(b, payloadBlock, extra, ps))[i] == Slices(payloadBlock.data, ps)[i]
    {
      FragmentAt(b, payloadBlock, extra, ps, i);
    }
  }

  /** The fragment for the `i`th piece, with what `MakeFragment` promises. */
  lemma FragmentAt(b: Bundle, payloadBlock: Block, extra: seq<Block>, ps: seq<Piece>, i: nat)
    requires |payloadBlock.data| < TWO_TO_THE_64
    requires forall i :: 0 <= i < |ps| ==> ps[i].offset + ps[i].size <= |payloadBlock.data|
    requires i < |ps|
    ensures var f := MakeFragments(b, payloadBlock, extra, ps)[i];
            IsFragment(f) && CheckCRC(f) &&
            f.primary.fragmentOffset == ps[i].offset && f.primary.totalLength == |payloadBlock.data| &&
            GetPayload(f) == payloadBlock.data[ps[i].offset..ps[i].offset + ps[i].size]
  {
    assert MakeFragments(b, payloadBlock, extra, ps)[i] == MakeFragment(b, payloadBlock, extra, ps[i].offset, ps[i].size);
  }

  /** `Bundle::Fragment` with the step made safe: nothing for a bundle that
      must not be fragmented, that already fits, that has no payload block,
      or when half the size limit is zero; otherwise one fragment per slice
      of half the limit. */
  function Fragment(b: Bundle, maxFragmentSize: nat): (fs: seq<Bundle>)
    requires |GetPayload(b)| < TWO_TO_THE_64
    ensures Primary.HasFlag(b.primary, Primary.BUNDLE_MUST_NOT_BE_FRAGMENTED) ==> fs == []
    ensures |ToCbor(b)| <= maxFragmentSize ==> fs == []
    ensures GetBlockByType(b, PAYLOAD_BLOCK).None? ==> fs == []
    ensures maxFragmentSize < 2 ==> fs == []
    ensures forall i :: 0 <= i < |fs| ==> IsFragment(fs[i]) && CheckCRC(fs[i])
    ensures forall i :: 0 <= i < |fs| ==> fs[i].primary.totalLength == |GetPayload(b)|
  {
    if Primary.HasFlag(b.primary, Primary.BUNDLE_MUST_NOT_BE_FRAGMENTED) then []
    else if |ToCbor(b)| <= maxFragmentSize then []
    else match GetBlockByType(b, PAYLOAD_BLOCK)
      case None => []
      case Some(payloadBlock) =>
        var step := maxFragmentSize / 2;
        if step == 0 then []
        else
          var ps := Pieces(|payloadBlock.data|, step, 0);
          var extra := ReplicatedBlocks(b.blocks);
          MakeFragmentsSealed(b, payloadBlock, extra, ps);
          MakeFragmentsPlaced(b, payloadBlock, extra, ps);
          MakeFragments(b, payloadBlock, extra, ps)
  }

  /** The fragments, when there are any, are the slices of the payload. */
  lemma FragmentSlices(b: Bundle, maxFragmentSize: nat)
    requires |GetPayload(b)| < TWO_TO_THE_64
    requires Fragment(b, maxFragmentSize) != []
    ensures GetBlockByType(b, PAYLOAD_BLOCK).Some? && maxFragmentSize / 2 > 0
    ensures Fragment(b, maxFragmentSize) ==
              MakeFragments(b, GetBlockByType(b, PAYLOAD_BLOCK).value, ReplicatedBlocks(b.blocks),
                            Pieces(|GetPayload(b)|, maxFragmentSize / 2, 0))
  {
  }

  /** The `i`th fragment starts `i` times half the size limit into the
      payload. */
  lemma FragmentOffsets(b: Bundle, maxFragmentSize: nat)
    requires |GetPayload(b)| < TWO_TO_THE_64
    ensures var fs := Fragment(b, maxFragmentSize);
            forall i :: 0 <= i < |fs| ==> fs[i].primary.fragmentOffset == i * (maxFragmentSize / 2)
  {
    if Fragment(b, maxFragmentSize) != [] {
      FragmentSlices(b, maxFragmentSize);
      PiecesOffsets(|GetPayload(b)|, maxFragmentSize / 2, 0);
      MakeFragmentsPlaced(b, GetBlockByType(b, PAYLOAD_BLOCK).value, ReplicatedBlocks(b.blocks), Pieces(|GetPayload(b)|, maxFragmentSize / 2, 0));
    }
  }

  /** The payloads of the fragments, joined in order, are the payload. */
  lemma FragmentsJoin(b: Bundle, maxFragmentSize: nat)
    requires |GetPayload(b)| < TWO_TO_THE_64
    requires Fragment(b, maxFragmentSize) != []
    ensures Concat(Payloads(Fragment(b, maxFragmentSize))) == GetPayload(b)
  {
    FragmentSlices(b, maxFragmentSize);
    var data := GetPayload(b);
    var ps := Pieces(|data|, maxFragmentSize / 2, 0);
    PiecesCover(data, maxFragmentSize / 2, 0);
    MakeFragmentsPayloads(b, GetBlockByType(b, PAYLOAD_BLOCK).value, ReplicatedBlocks(b.blocks), ps);
    assert data[0..] == data;
  }

  /** `Bundle::Fragment` as written advances its offset by `maxFragmentSize
      / 2`: the offset after `k` rounds of its loop. */
  function FragmentOffsetAsWritten(maxFragmentSize: nat, k: nat): nat {
    k * (maxFragmentSize / 2)
  }

  /** With a size limit below 2 and a non-empty payload the loop condition
      `offset < totalLength` holds after every number of rounds, so the loop
      as written never ends. */
  lemma FragmentAsWrittenNeverEnds(maxFragmentSize: nat, totalLength: nat, k: nat)
    requires maxFragmentSize < 2 && totalLength > 0
    ensures FragmentOffsetAsWritten(maxFragmentSize, k) < totalLength
  {
    assert maxFragmentSize / 2 == 0;
  }
}

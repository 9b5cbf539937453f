/** The fragmentation manager (`fragmentation-manager.cc`, section 5.8 and
    section 5.9 of RFC 9171): splitting a bundle into fragments that fit a
    size limit once the replicated header blocks are counted, and collecting
    fragments per original bundle until their payloads cover the whole
    application data unit, then reassembling it. */
module Fragmentation {
  import opened Wrappers
  import opened BoundedInts
  import opened BlockTypeCodes
  import DtnTime
  import Endpoint
  import BundleId
  import Primary = PrimaryBlock
  import Canonical = CanonicalBlock
  import B = Bundle

  type Bundle = B.Bundle
  type Block = B.Block

  // Fragment sizes

  /** The encoded size of a sequence of blocks. */
  function EncodedSize(blocks: seq<Block>): nat {
    if |blocks| == 0 then 0 else |Canonical.ToCbor(blocks[0])| + EncodedSize(blocks[1..])
  }

  /** The header overhead every fragment carries: the encoded primary block
      and the encoded blocks that must be replicated. */
  function Overhead(b: Bundle): nat {
    |Primary.ToCbor(b.primary)| + EncodedSize(B.ReplicatedBlocks(b.blocks))
  }

  /** The payload budget of one fragment: what the limit leaves after the
      overhead, or half the limit when the overhead alone exceeds it. */
  function Budget(maxFragmentSize: nat, overhead: nat): nat {
    if maxFragmentSize > overhead then maxFragmentSize - overhead else maxFragmentSize / 2
  }

  /** The number of fragments: the payload length divided by the budget,
      rounded up. */
  function FragmentCount(total: nat, budget: nat): nat
    requires budget > 0
  {
    (total + budget - 1) / budget
  }

  /** `CalculateFragmentPayloadSize`: the budget, except that the last
      fragment takes what remains after the others. */
  function PieceSize(total: nat, budget: nat, i: nat, n: nat): int {
    if i == n - 1 then total - i * budget else budget
  }

  /** `CalculateFragmentPayloadSize`: the budget, except that the last of
      `totalFragments` fragments takes what remains of the payload after
      the others. */
  function CalculateFragmentPayloadSize(b: Bundle, maxFragmentSize: nat, fragmentIndex: nat, totalFragments: nat): (r: nat)
    requires maxFragmentSize < TWO_TO_THE_64 && fragmentIndex < TWO_TO_THE_64 && totalFragments < TWO_TO_THE_64
    ensures r < TWO_TO_THE_64
  {
    SizeTPieceSize(|B.GetPayload(b)|, Budget(maxFragmentSize, Overhead(b)), fragmentIndex, totalFragments)
  }

  /** The arithmetic of `CalculateFragmentPayloadSize` in `size_t`, where
      the subtractions and the product wrap around. */
  function SizeTPieceSize(total: nat, budget: nat, i: nat, n: nat): (r: nat)
    requires budget < TWO_TO_THE_64
    ensures r < TWO_TO_THE_64
  {
    if i == (n - 1) % TWO_TO_THE_64 then (total - i * budget) % TWO_TO_THE_64 else budget
  }

  /** Within the fragments the loop cuts, nothing wraps around. */
  lemma SizeTPieceSizeExact(total: nat, budget: nat, i: nat, n: nat)
    requires budget < TWO_TO_THE_64 && total < TWO_TO_THE_64 && i < n && 0 < budget
    requires (n - 1) * budget < total && i * budget <= total
    ensures n < TWO_TO_THE_64
    ensures SizeTPieceSize(total, budget, i, n) == PieceSize(total, budget, i, n)
  {
    MulMono(1, budget, n - 1);
  }

  /** The loop of `FragmentBundle` from round `i` on: the `i`th fragment
      starts `i` budgets into the payload; a fragment starting at or beyond
      the end is skipped and one reaching beyond it is cut short. */
  function LoopPieces(total: nat, budget: nat, n: nat, i: nat): (ps: seq<B.Piece>)
    ensures forall k :: 0 <= k < |ps| ==> ps[k].offset + ps[k].size <= total
    decreases n - i
  {
    if i >= n then []
    else
      var offset := i * budget;
      if offset >= total then LoopPieces(total, budget, n, i + 1)
      else
        var size := PieceSize(total, budget, i, n);
        var clipped := if offset + size > total then total - offset else size;
        var rest := LoopPieces(total, budget, n, i + 1);
        assert forall k :: 1 <= k < 1 + |rest| ==> ([B.Piece(offset, clipped)] + rest)[k] == rest[k - 1];
        [B.Piece(offset, clipped)] + rest
  }

  lemma MulMono(a: nat, b: nat, c: nat)
    requires a <= b
    ensures a * c <= b * c
  {
  }

  /** The rounded-up count is the least number of budgets that reach the
      total: the one before it falls short. */
  lemma CountBounds(total: nat, budget: nat)
    requires budget > 0
    ensures total == 0 ==> FragmentCount(total, budget) == 0
    ensures total > 0 ==> FragmentCount(total, budget) >= 1 &&
                          (FragmentCount(total, budget) - 1) * budget < total <= FragmentCount(total, budget) * budget
  {
    var n := FragmentCount(total, budget);
    var r := (total + budget - 1) % budget;
    assert total + budget - 1 == n * budget + r;
    assert (n - 1) * budget == n * budget - budget;
  }

  /** From any round before the last, the loop yields the slices of
      `Bundle::Fragment` with the budget as step. */
  lemma {:induction false} LoopPiecesFrom(total: nat, budget: nat, n: nat, i: nat)
    requires budget > 0 && i < n
    requires (n - 1) * budget < total <= n * budget
    requires i * budget < total
    ensures LoopPieces(total, budget, n, i) == B.Pieces(total, budget, i * budget)
    ensures |LoopPieces(total, budget, n, i)| == n - i
    decreases n - i
  {
    var offset := i * budget;
    assert (i + 1) * budget == offset + budget;
    if i == n - 1 {
      assert LoopPieces(total, budget, n, i + 1) == [];
      assert B.Pieces(total, budget, total) == [];
    } else {
      MulMono(i + 1, n - 1, budget);
      LoopPiecesFrom(total, budget, n, i + 1);
    }
  }

  /** The loop with the rounded-up count never skips or cuts a fragment:
      it yields consecutive slices of the budget, the last one shorter. */
  lemma LoopPiecesArePieces(total: nat, budget: nat)
    requires budget > 0
    ensures LoopPieces(total, budget, FragmentCount(total, budget), 0) == B.Pieces(total, budget, 0)
    ensures |B.Pieces(total, budget, 0)| == FragmentCount(total, budget)
  {
    CountBounds(total, budget);
    if total > 0 {
      LoopPiecesFrom(total, budget, FragmentCount(total, budget), 0);
    }
  }

  // FragmentBundle

  /** The copies `FragmentBundle` makes of replicated blocks: plain
      `CanonicalBlock` objects with the same fields and no CRC value. */
  function Copies(blocks: seq<Block>): (r: seq<Block>)
    ensures |r| == |blocks|
  {
    seq(|blocks|, j requires 0 <= j < |blocks| =>
      Canonical.CanonicalBlock(Canonical.Generic, blocks[j].blockType, blocks[j].number, blocks[j].flags,
                               blocks[j].crcType, blocks[j].data, []))
  }

  /** `FragmentBundle`: nothing for a bundle that must not be fragmented, an
      administrative record, a bundle that already fits, a bundle without a
      payload block, or a zero budget; otherwise the payload split by the
      budget. */
  function FragmentBundle(b: Bundle, maxFragmentSize: nat): (fs: seq<Bundle>)
    requires |B.GetPayload(b)| < TWO_TO_THE_64
    ensures forall i :: 0 <= i < |fs| ==> B.IsFragment(fs[i]) && B.CheckCRC(fs[i])
    ensures forall i :: 0 <= i < |fs| ==> fs[i].primary.totalLength == |B.GetPayload(b)|
  {
    if Primary.HasFlag(b.primary, Primary.BUNDLE_MUST_NOT_BE_FRAGMENTED) then []
    else if B.IsAdministrativeRecord(b) then []
    else if |B.ToCbor(b)| <= maxFragmentSize then []
    else match B.GetBlockByType(b, PAYLOAD_BLOCK)
      case None => []
      case Some(payloadBlock) =>
        var budget := Budget(maxFragmentSize, Overhead(b));
        if budget == 0 then [] else SplitPayload(b, payloadBlock, budget)
  }

  /** The fragment loop of `FragmentBundle` for a payload block and a
      budget: one fragment per round, each carrying copies of the
      replicated blocks. */
  function SplitPayload(b: Bundle, payloadBlock: Block, budget: nat): (fs: seq<Bundle>)
    requires |payloadBlock.data| < TWO_TO_THE_64 && budget > 0
    ensures forall i :: 0 <= i < |fs| ==> B.IsFragment(fs[i]) && B.CheckCRC(fs[i])
    ensures forall i :: 0 <= i < |fs| ==> fs[i].primary.totalLength == |payloadBlock.data|
  {
    var total := |payloadBlock.data|;
    var ps := LoopPieces(total, budget, FragmentCount(total, budget), 0);
    var extra := Copies(B.ReplicatedBlocks(b.blocks));
    B.MakeFragmentsSealed(b, payloadBlock, extra, ps);
    B.MakeFragmentsPlaced(b, payloadBlock, extra, ps);
    B.MakeFragments(b, payloadBlock, extra, ps)
  }

  /** Bundles that must not be fragmented, administrative records, bundles
      within the limit and bundles without a payload block are not
      fragmented. */
  lemma FragmentBundleRefuses(b: Bundle, maxFragmentSize: nat)
    requires |B.GetPayload(b)| < TWO_TO_THE_64
    requires Primary.HasFlag(b.primary, Primary.BUNDLE_MUST_NOT_BE_FRAGMENTED) || B.IsAdministrativeRecord(b) ||
             |B.ToCbor(b)| <= maxFragmentSize || B.GetBlockByType(b, PAYLOAD_BLOCK).None?
    ensures FragmentBundle(b, maxFragmentSize) == []
  {
  }

  /** The fragments, when there are any, are the split of the first
      payload block by the budget. */
  lemma FragmentBundleSplits(b: Bundle, maxFragmentSize: nat)
    requires |B.GetPayload(b)| < TWO_TO_THE_64
    requires FragmentBundle(b, maxFragmentSize) != []
    ensures B.GetBlockByType(b, PAYLOAD_BLOCK).Some? && Budget(maxFragmentSize, Overhead(b)) > 0
    ensures B.GetPayload(b) == B.GetBlockByType(b, PAYLOAD_BLOCK).value.data
    ensures FragmentBundle(b, maxFragmentSize) ==
              SplitPayload(b, B.GetBlockByType(b, PAYLOAD_BLOCK).value, Budget(maxFragmentSize, Overhead(b)))
  {
  }

  /** The split yields the fragments of the budget-sized slices of the
      payload. */
  lemma SplitPieces(b: Bundle, payloadBlock: Block, budget: nat)
    requires |payloadBlock.data| < TWO_TO_THE_64 && budget > 0
    ensures SplitPayload(b, payloadBlock, budget) ==
              B.MakeFragments(b, payloadBlock, Copies(B.ReplicatedBlocks(b.blocks)), B.Pieces(|payloadBlock.data|, budget, 0))
  {
    LoopPiecesArePieces(|payloadBlock.data|, budget);
  }

  /** There are as many fragments as budgets needed to hold the payload;
      the `i`th starts `i` budgets in and holds at most one budget, never
      nothing. */
  lemma SplitLayout(b: Bundle, payloadBlock: Block, budget: nat)
    requires |payloadBlock.data| < TWO_TO_THE_64 && budget > 0
    ensures var fs := SplitPayload(b, payloadBlock, budget);
            |fs| == FragmentCount(|payloadBlock.data|, budget) &&
            forall i :: 0 <= i < |fs| ==>
              fs[i].primary.fragmentOffset == i * budget && 0 < |B.GetPayload(fs[i])| <= budget
  {
    SplitPieces(b, payloadBlock, budget);
    LoopPiecesArePieces(|payloadBlock.data|, budget);
    PiecesLayout(b, payloadBlock, Copies(B.ReplicatedBlocks(b.blocks)), budget);
  }

  /** The fragments of budget-sized slices start at multiples of the
      budget and hold at most one budget each, never nothing. */
  lemma PiecesLayout(b: Bundle, payloadBlock: Block, extra: seq<Block>, budget: nat)
    requires |payloadBlock.data| < TWO_TO_THE_64 && budget > 0
    ensures var fs := B.MakeFragments(b, payloadBlock, extra, B.Pieces(|payloadBlock.data|, budget, 0));
            forall i :: 0 <= i < |fs| ==>
              fs[i].primary.fragmentOffset == i * budget && 0 < |B.GetPayload(fs[i])| <= budget
  {
    var fs := B.MakeFragments(b, payloadBlock, extra, B.Pieces(|payloadBlock.data|, budget, 0));
    forall i | 0 <= i < |fs|
      ensures fs[i].primary.fragmentOffset == i * budget && 0 < |B.GetPayload(fs[i])| <= budget
    {
      PieceLayoutAt(b, payloadBlock, extra, budget, i);
    }
  }

  lemma PieceLayoutAt(b: Bundle, payloadBlock: Block, extra: seq<Block>, budget: nat, i: nat)
    requires |payloadBlock.data| < TWO_TO_THE_64 && budget > 0
    requires i < |B.Pieces(|payloadBlock.data|, budget, 0)|
    ensures var f := B.MakeFragments(b, payloadBlock, extra, B.Pieces(|payloadBlock.data|, budget, 0))[i];
            f.primary.fragmentOffset == i * budget && 0 < |B.GetPayload(f)| <= budget
  {
    PieceOffsetAt(|payloadBlock.data|, budget, i);
    B.FragmentAt(b, payloadBlock, extra, B.Pieces(|payloadBlock.data|, budget, 0), i);
  }

  /** The payloads of the fragments, joined in order, are the payload. */
  lemma SplitJoins(b: Bundle, payloadBlock: Block, budget: nat)
    requires |payloadBlock.data| < TWO_TO_THE_64 && budget > 0
    ensures B.Concat(B.Payloads(SplitPayload(b, payloadBlock, budget))) == payloadBlock.data
  {
    SplitPieces(b, payloadBlock, budget);
    var data := payloadBlock.data;
    var ps := B.Pieces(|data|, budget, 0);
    B.PiecesCover(data, budget, 0);
    B.MakeFragmentsPayloads(b, payloadBlock, Copies(B.ReplicatedBlocks(b.blocks)), ps);
    assert data[0..] == data;
  }

  /** A block as `FragmentBundle` copies it: a plain `CanonicalBlock` with
      the same type, flags, CRC type and data, and the same number unless
      that is 0 (which `AddBlock` replaces). */
  predicate CopyOf(c: Block, x: Block) {
    c.kind == Canonical.Generic && c.blockType == x.blockType && c.flags == x.flags &&
    c.crcType == x.crcType && c.data == x.data && (x.number != 0 ==> c.number == x.number)
  }

  /** After its payload block, a fragment holds a copy of each block, in
      order, and nothing else. */
  predicate CarriesCopies(f: Bundle, blocks: seq<Block>) {
    |f.blocks| == 1 + |blocks| && forall j :: 0 <= j < |blocks| ==> CopyOf(f.blocks[1 + j], blocks[j])
  }

  /** Each fragment carries, after its payload block, a copy of every
      replicated block of the bundle, in order. */
  lemma SplitCarriesReplicatedBlocks(b: Bundle, payloadBlock: Block, budget: nat, i: nat)
    requires |payloadBlock.data| < TWO_TO_THE_64 && budget > 0
    requires i < |SplitPayload(b, payloadBlock, budget)|
    ensures CarriesCopies(SplitPayload(b, payloadBlock, budget)[i], B.ReplicatedBlocks(b.blocks))
  {
    SplitPieces(b, payloadBlock, budget);
    PiecesCopies(b, payloadBlock, B.ReplicatedBlocks(b.blocks), B.Pieces(|payloadBlock.data|, budget, 0), i);
  }

  /** The primary block of each fragment is the bundle's, marked as a
      fragment, with its offset and the total length. */
  lemma SplitPrimary(b: Bundle, payloadBlock: Block, budget: nat, i: nat)
    requires |payloadBlock.data| < TWO_TO_THE_64 && budget > 0
    requires i < |SplitPayload(b, payloadBlock, budget)|
    ensures var f := SplitPayload(b, payloadBlock, budget)[i];
            f.primary == Primary.SetFlag(b.primary, Primary.BUNDLE_IS_A_FRAGMENT, true)
                           .(fragmentOffset := f.primary.fragmentOffset, totalLength := |payloadBlock.data|, crc := f.primary.crc)
  {
    SplitPieces(b, payloadBlock, budget);
    PiecesPrimary(b, payloadBlock, Copies(B.ReplicatedBlocks(b.blocks)), B.Pieces(|payloadBlock.data|, budget, 0), i);
  }

  lemma PieceOffsetAt(total: nat, step: nat, i: nat)
    requires step > 0 && i < |B.Pieces(total, step, 0)|
    ensures B.Pieces(total, step, 0)[i].offset == i * step
  {
    B.PiecesOffsets(total, step, 0);
    assert B.Pieces(total, step, 0)[i].offset == 0 + i * step;
  }

  /** The blocks after the payload block of the `i`th fragment are copies
      of the given blocks. */
  lemma PiecesCopies(b: Bundle, payloadBlock: Block, blocks: seq<Block>, ps: seq<B.Piece>, i: nat)
    requires |payloadBlock.data| < TWO_TO_THE_64
    requires forall k :: 0 <= k < |ps| ==> ps[k].offset + ps[k].size <= |payloadBlock.data|
    requires i < |ps|
    ensures CarriesCopies(B.MakeFragments(b, payloadBlock, Copies(blocks), ps)[i], blocks)
  {
    var extra := Copies(blocks);
    var f := B.MakeFragment(b, payloadBlock, extra, ps[i].offset, ps[i].size);
    assert B.MakeFragments(b, payloadBlock, extra, ps)[i] == f;
    B.FragmentBlocks(b, payloadBlock, extra, ps[i].offset, ps[i].size);
    forall j | 0 <= j < |blocks| ensures CopyOf(f.blocks[1 + j], blocks[j]) {
      assert f.blocks[1 + j] == extra[j].(number := f.blocks[1 + j].number, crc := f.blocks[1 + j].crc);
    }
  }

  /** The primary block of the `i`th fragment. */
  lemma PiecesPrimary(b: Bundle, payloadBlock: Block, extra: seq<Block>, ps: seq<B.Piece>, i: nat)
    requires |payloadBlock.data| < TWO_TO_THE_64
    requires forall k :: 0 <= k < |ps| ==> ps[k].offset + ps[k].size <= |payloadBlock.data|
    requires i < |ps|
    ensures var f := B.MakeFragments(b, payloadBlock, extra, ps)[i];
            f.primary == Primary.SetFlag(b.primary, Primary.BUNDLE_IS_A_FRAGMENT, true)
                           .(fragmentOffset := f.primary.fragmentOffset, totalLength := |payloadBlock.data|, crc := f.primary.crc)
  {
    assert B.MakeFragments(b, payloadBlock, extra, ps)[i] == B.MakeFragment(b, payloadBlock, extra, ps[i].offset, ps[i].size);
    B.FragmentBlocks(b, payloadBlock, extra, ps[i].offset, ps[i].size);
  }

  /** An encoded primary block is never empty: it has at least its head. */
  lemma OverheadPositive(b: Bundle)
    ensures Overhead(b) >= 1
  {
    assert |Primary.ToCbor(b.primary)| >= 1;
  }

  /** As written, with a size limit below 2 any bundle that passes the
      checks before the division gets a zero budget, which the fragment
      count then divides by. */
  lemma ZeroBudgetAsWritten(b: Bundle, maxFragmentSize: nat)
    requires maxFragmentSize < 2
    ensures Budget(maxFragmentSize, Overhead(b)) == 0
  {
    OverheadPositive(b);
  }

  /** With the zero budget refused, a size limit below 2 yields no
      fragments. */
  lemma TinyLimitYieldsNothing(b: Bundle, maxFragmentSize: nat)
    requires |B.GetPayload(b)| < TWO_TO_THE_64
    requires maxFragmentSize < 2
    ensures FragmentBundle(b, maxFragmentSize) == []
  {
    ZeroBudgetAsWritten(b, maxFragmentSize);
  }

  // Fragment sets

  /** `FragmentInfo`: what is kept per original bundle. */
  datatype FragmentInfo = FragmentInfo(
    sourceId: BundleId.BundleId,
    totalLength: uint64,
    fragments: seq<Bundle>,
    expirationTime: DtnTime.Time,
    complete: bool)

  /** `m_fragmentSets`, keyed by what `operator==` of the original bundle
      identifier compares. */
  type FragmentSets = map<BundleId.IdKey, FragmentInfo>

  /** The offset of a fragment and the end of its payload. */
  function Offset(f: Bundle): nat {
    f.primary.fragmentOffset
  }

  function End(f: Bundle): nat {
    Offset(f) + |B.GetPayload(f)|
  }

  /** The identifier of the bundle a fragment was cut from: the fragment's
      own identifier without the fragment part. */
  function OriginalIdOf(f: Bundle): BundleId.BundleId {
    BundleId.BundleId(f.primary.source, f.primary.creation, f.primary.sequenceNumber, false, 0)
  }

  /** `GetOriginalBundleId`: for a fragment, the identifier of the bundle it
      was cut from; for any other bundle the default `BundleID()`, whose
      source is `dtn:none`, whose sequence number is 0 and whose timestamp
      is what the DTN clock reads at the call, passed as `clock`. */
  function GetOriginalBundleId(f: Bundle, clock: DtnTime.DtnTime): (r: BundleId.BundleId)
    ensures !r.isFragment && r.fragmentOffset == 0
    ensures B.IsFragment(f) ==> r == B.GetId(f).(isFragment := false, fragmentOffset := 0)
    ensures B.IsFragment(f) ==> BundleId.Key(r) == SetKey(f)
    ensures !B.IsFragment(f) ==> Endpoint.IsNone(r.source) && r.source == Endpoint.DTN_NONE &&
                                 r.timestamp == clock && r.sequenceNumber == 0
  {
    if !B.IsFragment(f) then BundleId.BundleId(Endpoint.DTN_NONE, clock, 0, false, 0)
    else OriginalIdOf(f)
  }

  /** The default identifier a non-fragment gets never equals the original
      identifier of a fragment from a real source, so it cannot name that
      fragment's set. */
  lemma NonFragmentIdIsNone(f: Bundle, g: Bundle, clock: DtnTime.DtnTime)
    requires !B.IsFragment(f) && B.IsFragment(g)
    requires g.primary.source.uri != Endpoint.DTN_NONE.uri
    ensures !BundleId.Equal(GetOriginalBundleId(f, clock), GetOriginalBundleId(g, clock))
    ensures BundleId.Key(GetOriginalBundleId(f, clock)) != SetKey(g)
  {
  }

  /** The key of the fragment set a fragment belongs to. */
  function SetKey(f: Bundle): BundleId.IdKey {
    BundleId.Key(OriginalIdOf(f))
  }

  /** Some fragment of the sequence starts at the offset. */
  predicate HasOffset(fs: seq<Bundle>, offset: nat) {
    exists j :: 0 <= j < |fs| && Offset(fs[j]) == offset
  }

  /** `AddFragment`: a bundle that is not a fragment is refused. Otherwise
      its set is looked up (created from this fragment's total length and
      expiration when missing or empty); a fragment at an offset already
      held is dropped; else it is appended and reassembly is tried. Only the
      fragment's own set changes. */
  function AddFragment(sets: FragmentSets, f: Bundle): (r: (FragmentSets, Option<Bundle>))
    ensures !B.IsFragment(f) ==> r == (sets, None)
    ensures B.IsFragment(f) ==> r.0.Keys == sets.Keys + {SetKey(f)}
    ensures forall k :: k in sets && k != SetKey(f) ==> r.0[k] == sets[k]
    ensures r.1.Some? ==> !B.IsFragment(r.1.value) && B.CheckCRC(r.1.value)
  {
    if !B.IsFragment(f) then (sets, None)
    else
      var key := SetKey(f);
      var info := SetFor(sets, f);
      if HasOffset(info.fragments, Offset(f)) then (sets[key := info], None)
      else
        var (updated, out) := TryReassemble(info.(fragments := info.fragments + [f]));
        (sets[key := updated], out)
  }

  /** The set a fragment joins: the one held under its key, or, when there
      is none or it is empty, a new one with the original identifier and
      this fragment's total length and expiration. */
  function SetFor(sets: FragmentSets, f: Bundle): FragmentInfo
    requires B.IsFragment(f)
  {
    var key := SetKey(f);
    if key in sets && |sets[key].fragments| > 0 then sets[key]
    else FragmentInfo(OriginalIdOf(f), f.primary.totalLength, [], Primary.ExpirationTime(f.primary), false)
  }

  /** A fragment at an offset its set already holds is dropped and
      nothing is yielded; the sets change only by the set being created. */
  lemma DuplicateIgnored(sets: FragmentSets, f: Bundle)
    requires B.IsFragment(f) && HasOffset(SetFor(sets, f).fragments, Offset(f))
    ensures AddFragment(sets, f) == (sets[SetKey(f) := SetFor(sets, f)], None)
    ensures SetKey(f) in sets ==> AddFragment(sets, f).0 == sets
  {
  }

  /** A fragment at a new offset is appended to its set, which is then
      stored whatever reassembly makes of it. */
  lemma AddFragmentAppends(sets: FragmentSets, f: Bundle)
    requires B.IsFragment(f) && !HasOffset(SetFor(sets, f).fragments, Offset(f))
    ensures var grown := SetFor(sets, f).(fragments := SetFor(sets, f).fragments + [f]);
            AddFragment(sets, f) == (sets[SetKey(f) := TryReassemble(grown).0], TryReassemble(grown).1)
  {
  }

  /** The set a fragment joins keeps its identifier, total length and
      expiration: those of the set already held, or of the first fragment
      when there was none; it holds the fragment unless one at the same
      offset was there already. */
  lemma AddFragmentHolds(sets: FragmentSets, f: Bundle)
    requires B.IsFragment(f)
    ensures var key := SetKey(f);
            var info := AddFragment(sets, f).0[key];
            (key in sets && |sets[key].fragments| > 0 ==>
               info.sourceId == sets[key].sourceId && info.totalLength == sets[key].totalLength &&
               info.expirationTime == sets[key].expirationTime) &&
            (!(key in sets && |sets[key].fragments| > 0) ==>
               info.sourceId == OriginalIdOf(f) && info.totalLength == f.primary.totalLength &&
               info.expirationTime == Primary.ExpirationTime(f.primary))
    ensures var held := SetFor(sets, f).fragments;
            multiset(AddFragment(sets, f).0[SetKey(f)].fragments) ==
              if HasOffset(held, Offset(f)) then multiset(held) else multiset(held) + multiset{f}
  {
    if !HasOffset(SetFor(sets, f).fragments, Offset(f)) {
      AddFragmentAppends(sets, f);
    }
  }

  /** Once a set is complete, further fragments of it yield nothing and it
      stays complete. */
  lemma CompleteStaysSilent(sets: FragmentSets, f: Bundle)
    requires B.IsFragment(f) && SetKey(f) in sets && |sets[SetKey(f)].fragments| > 0 && sets[SetKey(f)].complete
    ensures AddFragment(sets, f).1.None? && AddFragment(sets, f).0[SetKey(f)].complete
  {
    if !HasOffset(SetFor(sets, f).fragments, Offset(f)) {
      AddFragmentAppends(sets, f);
    }
  }

  /** `TryReassemble`: nothing for a set already reassembled. Otherwise the
      fragments are sorted by offset and kept so; the set is reassembled,
      and marked complete, when they leave no gap and reach the total
      length. */
  function TryReassemble(info: FragmentInfo): (r: (FragmentInfo, Option<Bundle>))
    requires |info.fragments| > 0
    ensures r.0 == info.(fragments := r.0.fragments, complete := r.0.complete)
    ensures multiset(r.0.fragments) == multiset(info.fragments)
    ensures r.1.Some? <==> r.0.complete && !info.complete
    ensures r.1.Some? ==> |B.GetPayload(r.1.value)| == info.totalLength
    ensures r.1.Some? ==> !B.IsFragment(r.1.value) && B.CheckCRC(r.1.value)
  {
    if info.complete then (info, None)
    else
      var sorted := SortByOffset(info.fragments);
      var kept := info.(fragments := sorted);
      match Coverage(sorted, 0)
      case None => (kept, None)
      case Some(covered) =>
        if covered < info.totalLength then (kept, None)
        else (kept.(complete := true), Some(Reassemble(sorted, info.totalLength)))
  }

  /** A set has expired once the time is past its expiration time. */
  predicate Expired(info: FragmentInfo, now: DtnTime.Time) {
    now > info.expirationTime
  }

  /** `CleanupExpiredFragments`: the expired sets are removed, the others
      kept as they are, and the number removed is returned. The clock is a
      parameter. */
  function CleanupExpiredFragments(sets: FragmentSets, now: DtnTime.Time): (r: (FragmentSets, nat))
    ensures forall k :: k in r.0 <==> k in sets && !Expired(sets[k], now)
    ensures forall k :: k in r.0 ==> r.0[k] == sets[k]
    ensures r.1 + |r.0| == |sets|
  {
    var kept := map k | k in sets && !Expired(sets[k], now) :: sets[k];
    var removed := set k | k in sets && Expired(sets[k], now);
    assert kept.Keys + removed == sets.Keys && kept.Keys * removed == {};
    (kept, |removed|)
  }

  /** Cleaning up again at the same time removes nothing. */
  lemma CleanupIdempotent(sets: FragmentSets, now: DtnTime.Time)
    ensures var (kept, _) := CleanupExpiredFragments(sets, now);
            CleanupExpiredFragments(kept, now) == (kept, 0)
  {
    var (kept, _) := CleanupExpiredFragments(sets, now);
    var (again, count) := CleanupExpiredFragments(kept, now);
    assert again == kept;
  }

  /** A set first joined by a fragment created at the DTN epoch with a
      lifetime of 9223372036855 ms gets a wrapped, negative expiration, so
      the next cleanup removes it whatever the clock reads. */
  lemma LongLifetimeSetDropped(sets: FragmentSets, f: Bundle, now: DtnTime.Time)
    requires B.IsFragment(f) && SetKey(f) !in sets
    requires f.primary.creation == DtnTime.DtnTime(0, 0) && f.primary.lifetimeMs == 9_223_372_036_855
    requires now >= 0
    ensures SetKey(f) !in CleanupExpiredFragments(AddFragment(sets, f).0, now).0
  {
    AddFragmentHolds(sets, f);
    Primary.ExpirationWraps(f.primary);
  }

  /** A later cleanup keeps no set an earlier one removes. */
  lemma CleanupLaterKeepsLess(sets: FragmentSets, earlier: DtnTime.Time, later: DtnTime.Time)
    requires earlier <= later
    ensures CleanupExpiredFragments(sets, later).0.Keys <= CleanupExpiredFragments(sets, earlier).0.Keys
  {
  }

  // Sorting by offset

  predicate SortedByOffset(fs: seq<Bundle>) {
    forall i, j :: 0 <= i < j < |fs| ==> Offset(fs[i]) <= Offset(fs[j])
  }

  /** One fragment put before the first one that does not start earlier. */
  function Insert(f: Bundle, fs: seq<Bundle>): (r: seq<Bundle>)
    requires SortedByOffset(fs)
    ensures SortedByOffset(r)
    ensures multiset(r) == multiset(fs) + multiset{f}
    ensures |r| == |fs| + 1 && (r[0] == f || (|fs| > 0 && r[0] == fs[0]))
  {
    if |fs| == 0 then [f]
    else if Offset(f) <= Offset(fs[0]) then [f] + fs
    else
      var rest := Insert(f, fs[1..]);
      assert fs == [fs[0]] + fs[1..];
      LeastFirst(fs[0], rest, fs[1..], f);
      [fs[0]] + rest
  }

  /** A sorted sequence stays sorted under a new head no later than any of
      its elements. */
  lemma LeastFirst(x: Bundle, rest: seq<Bundle>, tail: seq<Bundle>, f: Bundle)
    requires SortedByOffset([x] + tail) && SortedByOffset(rest)
    requires multiset(rest) == multiset(tail) + multiset{f} && Offset(x) < Offset(f)
    ensures SortedByOffset([x] + rest)
  {
    forall y | y in rest
      ensures Offset(x) <= Offset(y)
    {
      assert y in multiset(rest);
      if y != f {
        assert y in multiset(tail);
        var j :| 0 <= j < |tail| && tail[j] == y;
        assert ([x] + tail)[0] == x && ([x] + tail)[1 + j] == y;
      }
    }
    var s := [x] + rest;
    forall i, j | 0 <= i < j < |s|
      ensures Offset(s[i]) <= Offset(s[j])
    {
      assert s[j] == rest[j - 1];
      if i > 0 {
        assert s[i] == rest[i - 1];
      } else {
        assert rest[j - 1] in rest;
      }
    }
  }

  /** The `std::sort` by offset. Offsets within a set are distinct, since a
      second fragment at an offset is dropped, so the order is fixed. */
  function SortByOffset(fs: seq<Bundle>): (r: seq<Bundle>)
    ensures SortedByOffset(r)
    ensures multiset(r) == multiset(fs)
    ensures |r| == |fs|
  {
    if |fs| == 0 then []
    else
      var n := |fs| - 1;
      assert fs == fs[..n] + [fs[n]];
      Insert(fs[n], SortByOffset(fs[..n]))
  }

  // Coverage

  /** The check loop of `TryReassemble` from `covered` on: nothing when a
      fragment starts after the bytes covered so far, otherwise how far the
      fragments reach. */
  function Coverage(frags: seq<Bundle>, covered: nat): (r: Option<nat>)
    decreases |frags|
  {
    if |frags| == 0 then Some(covered)
    else if Offset(frags[0]) > covered then None
    else Coverage(frags[1..], if End(frags[0]) > covered then End(frags[0]) else covered)
  }

  /** Byte `k` of the unit lies in the payload of one of the fragments. */
  predicate Covers(frags: seq<Bundle>, k: nat) {
    exists f :: f in frags && Offset(f) <= k < End(f)
  }

  /** Some fragment starts after byte `k`. */
  predicate StartsAfter(frags: seq<Bundle>, k: nat) {
    exists f :: f in frags && k < Offset(f)
  }

  /** Byte `k` is one reassembly needs: inside the unit, or before the start
      of some fragment. */
  predicate Needed(frags: seq<Bundle>, total: nat, k: nat) {
    k < total || StartsAfter(frags, k)
  }

  /** When the loop finds no gap, every byte from `c0` to the coverage is in
      some fragment and no fragment reaches beyond it. */
  lemma {:induction false} CoverageSound(frags: seq<Bundle>, c0: nat)
    requires Coverage(frags, c0).Some?
    ensures c0 <= Coverage(frags, c0).value
    ensures forall k :: c0 <= k < Coverage(frags, c0).value ==> Covers(frags, k)
    ensures forall f :: f in frags ==> End(f) <= Coverage(frags, c0).value
    decreases |frags|
  {
    if |frags| > 0 {
      var c1 := if End(frags[0]) > c0 then End(frags[0]) else c0;
      CoverageSound(frags[1..], c1);
      assert frags == [frags[0]] + frags[1..];
      forall k | c0 <= k < Coverage(frags, c0).value ensures Covers(frags, k) {
        if k < c1 {
          assert frags[0] in frags;
        } else {
          assert Covers(frags[1..], k);
        }
      }
    }
  }

  /** The byte the check loop finds missing: the coverage so far when a
      fragment starts after it. */
  function GapAt(frags: seq<Bundle>, covered: nat): nat
    requires Coverage(frags, covered).None?
    decreases |frags|
  {
    if Offset(frags[0]) > covered then covered
    else GapAt(frags[1..], if End(frags[0]) > covered then End(frags[0]) else covered)
  }

  /** When the loop finds a gap in fragments sorted by offset, the byte
      there is in no fragment, although the last fragment starts after
      it. */
  lemma {:induction false} GapUncovered(frags: seq<Bundle>, c0: nat)
    requires SortedByOffset(frags)
    requires Coverage(frags, c0).None?
    ensures c0 <= GapAt(frags, c0) < Offset(frags[|frags| - 1])
    ensures !Covers(frags, GapAt(frags, c0))
    decreases |frags|
  {
    if Offset(frags[0]) > c0 {
      NothingBeforeFirst(frags, c0);
    } else {
      var c1 := if End(frags[0]) > c0 then End(frags[0]) else c0;
      GapUncovered(frags[1..], c1);
      assert frags[1..][|frags[1..]| - 1] == frags[|frags| - 1];
      HeadDoesNotCover(frags, GapAt(frags, c0));
    }
  }

  /** Fragments sorted by offset cover nothing before the first one starts. */
  lemma NothingBeforeFirst(frags: seq<Bundle>, k: nat)
    requires SortedByOffset(frags) && |frags| > 0 && k < Offset(frags[0])
    ensures !Covers(frags, k)
  {
    forall f | f in frags ensures k < Offset(f) {
      var j :| 0 <= j < |frags| && frags[j] == f;
      assert j == 0 || Offset(frags[0]) <= Offset(frags[j]);
    }
  }

  /** A byte past the first fragment and in none of the others is in none. */
  lemma HeadDoesNotCover(frags: seq<Bundle>, k: nat)
    requires |frags| > 0 && End(frags[0]) <= k && !Covers(frags[1..], k)
    ensures !Covers(frags, k)
  {
    assert frags == [frags[0]] + frags[1..];
  }

  /** `TryReassemble` reassembles a set not yet complete exactly when every
      byte it needs lies in one of the fragments. */
  lemma ReassemblesIffCovered(info: FragmentInfo)
    requires !info.complete && |info.fragments| > 0
    ensures TryReassemble(info).1.Some? <==>
              forall k :: Needed(info.fragments, info.totalLength, k) ==> Covers(info.fragments, k)
  {
    var frags := info.fragments;
    var sorted := SortByOffset(frags);
    assert forall f :: f in sorted <==> f in frags by {
      assert forall f :: f in sorted <==> f in multiset(sorted);
    }
    assert forall k :: Covers(sorted, k) <==> Covers(frags, k);
    assert forall k :: Needed(sorted, info.totalLength, k) <==> Needed(frags, info.totalLength, k);
    match Coverage(sorted, 0)
    case None =>
      GapUncovered(sorted, 0);
      assert sorted[|sorted| - 1] in sorted;
      assert Needed(sorted, info.totalLength, GapAt(sorted, 0));
    case Some(covered) =>
      CoverageSound(sorted, 0);
      if covered < info.totalLength {
        assert Needed(sorted, info.totalLength, covered) && !Covers(sorted, covered);
      } else {
        forall k | Needed(sorted, info.totalLength, k) ensures Covers(sorted, k) {
        }
      }
  }

  // Reassembly

  function Zeros(n: nat): (r: seq<uint8>)
    ensures |r| == n
  {
    seq(n, _ => 0)
  }

  /** `data` copied into `buf` at `offset`; bytes that would land beyond the
      end of `buf` are dropped. */
  function Overlay(buf: seq<uint8>, offset: nat, data: seq<uint8>): (r: seq<uint8>)
    ensures |r| == |buf|
  {
    seq(|buf|, j requires 0 <= j < |buf| => if offset <= j < offset + |data| then data[j - offset] else buf[j])
  }

  /** The copy loop of `TryReassemble`: each fragment's payload copied at
      its offset in turn, later fragments over earlier ones. */
  function PlaceAll(buf: seq<uint8>, frags: seq<Bundle>): (r: seq<uint8>)
    ensures |r| == |buf|
    decreases |frags|
  {
    if |frags| == 0 then buf else PlaceAll(Overlay(buf, Offset(frags[0]), B.GetPayload(frags[0])), frags[1..])
  }

  /** The blocks of a fragment other than payload blocks, in order. */
  function NonPayload(blocks: seq<Block>): seq<Block> {
    if |blocks| == 0 then []
    else if blocks[0].blockType == PAYLOAD_BLOCK then NonPayload(blocks[1..])
    else [blocks[0]] + NonPayload(blocks[1..])
  }

  /** The reassembled bundle: the first fragment's primary block with the
      fragment flag cleared, a payload block of the total length holding
      each fragment's payload at its offset, then the first fragment's
      other blocks, with all CRCs computed. */
  function Reassemble(frags: seq<Bundle>, total: nat): (r: Bundle)
    requires |frags| > 0
    ensures !B.IsFragment(r) && B.CheckCRC(r)
    ensures r.primary == Primary.SetFlag(frags[0].primary, Primary.BUNDLE_IS_A_FRAGMENT, false).(crc := r.primary.crc)
    ensures B.GetPayload(r) == PlaceAll(Zeros(total), frags)
  {
    var primary := Primary.SetFlag(frags[0].primary, Primary.BUNDLE_IS_A_FRAGMENT, false);
    var payload := PlaceAll(Zeros(total), frags);
    var first := B.AddBlock(B.Bundle(primary, []), Canonical.NewPayloadBlock(payload));
    var whole := B.AddBlocks(first, NonPayload(frags[0].blocks));
    assert whole.blocks[0] == Canonical.NewPayloadBlock(payload);
    assert B.FirstOfType(whole.blocks, PAYLOAD_BLOCK) == 0;
    B.CalculateCRCKeepsPayload(whole);
    B.CalculateCRC(whole)
  }

  /** `r` is what reassembly builds from fragments sorted by offset: the
      first one's primary block unmarked as a fragment, and their payloads
      placed at their offsets in a buffer of the total length. */
  predicate Rebuilt(frags: seq<Bundle>, total: nat, r: Bundle) {
    |frags| > 0 && SortedByOffset(frags) &&
    B.GetPayload(r) == PlaceAll(Zeros(total), frags) &&
    r.primary == Primary.SetFlag(frags[0].primary, Primary.BUNDLE_IS_A_FRAGMENT, false).(crc := r.primary.crc)
  }

  /** What `TryReassemble` builds: the bundle it yields is rebuilt from the
      fragments it keeps. */
  lemma TryReassembleBuilds(info: FragmentInfo)
    requires |info.fragments| > 0
    ensures TryReassemble(info).1.Some? ==>
              Rebuilt(TryReassemble(info).0.fragments, info.totalLength, TryReassemble(info).1.value)
  {
  }

  /** The copy loop of `TryReassemble` writes into a buffer of the total
      length, so it stays inside only when no payload reaches past it. */
  predicate CopyFits(frags: seq<Bundle>, total: nat) {
    forall f :: f in frags ==> End(f) <= total
  }

  /** A fragment of a one-byte unit, at offset 0, carrying two bytes. */
  function OverlongFragment(): (f: Bundle)
    ensures B.IsFragment(f) && Offset(f) == 0 && f.primary.totalLength == 1
  {
    var primary := Primary.Default().(flags := Primary.BUNDLE_IS_A_FRAGMENT, totalLength := 1);
    B.Bundle(primary, [Canonical.NewPayloadBlock([0, 0])])
  }

  /** As written, the check before the copy asks only that the fragments
      reach the total length, not that they stay within it: a set holding
      the overlong fragment is reassembled, and copying its payload would
      write past the end of the one-byte buffer. */
  lemma OverlongFragmentAsWritten()
    ensures var f := OverlongFragment();
            var info := FragmentInfo(B.GetId(f), 1, [f], 0, false);
            TryReassemble(info).1.Some? && !CopyFits(info.fragments, info.totalLength)
  {
    var f := OverlongFragment();
    assert B.FirstOfType(f.blocks, PAYLOAD_BLOCK) == 0;
    assert B.GetPayload(f) == [0, 0];
    assert SortByOffset([f]) == [f];
    assert Coverage([f], 0) == Some(2);
    assert f in [f];
  }

  // Reassembling the fragments of one bundle

  /** The fragments lie end to end from `start`, each with some payload,
      and the last ends at `total`. */
  predicate Tiles(fs: seq<Bundle>, start: nat, total: nat)
    decreases |fs|
  {
    if |fs| == 0 then start == total
    else Offset(fs[0]) == start && |B.GetPayload(fs[0])| > 0 && Tiles(fs[1..], End(fs[0]), total)
  }

  /** In a tiling every fragment lies within `[start, total)`, and each
      ends no later than any later one starts. */
  lemma {:induction false} TilesOrdered(fs: seq<Bundle>, start: nat, total: nat)
    requires Tiles(fs, start, total)
    ensures start <= total
    ensures forall i :: 0 <= i < |fs| ==> start <= Offset(fs[i]) < End(fs[i]) <= total
    ensures forall i, j :: 0 <= i < j < |fs| ==> End(fs[i]) <= Offset(fs[j])
    decreases |fs|
  {
    if |fs| > 0 {
      var rest := fs[1..];
      TilesOrdered(rest, End(fs[0]), total);
      assert forall i :: 1 <= i < |fs| ==> fs[i] == rest[i - 1];
    }
  }

  /** A tiling covers every byte from `start` to `total`. */
  lemma {:induction false} TilesCover(fs: seq<Bundle>, start: nat, total: nat, k: nat)
    requires Tiles(fs, start, total) && start <= k < total
    ensures Covers(fs, k)
    decreases |fs|
  {
    if k < End(fs[0]) {
      assert fs[0] in fs;
    } else {
      TilesCover(fs[1..], End(fs[0]), total, k);
      var f :| f in fs[1..] && Offset(f) <= k < End(f);
      assert f in fs;
    }
  }

  /** Placing a tiling into a buffer that holds it writes the joined
      payloads over `[start, total)` and leaves the rest of the buffer. */
  lemma {:induction false} TilesPlace(buf: seq<uint8>, fs: seq<Bundle>, start: nat, total: nat)
    requires Tiles(fs, start, total) && total <= |buf|
    ensures start <= total
    ensures PlaceAll(buf, fs) == buf[..start] + B.Concat(B.Payloads(fs)) + buf[total..]
    decreases |fs|
  {
    if |fs| > 0 {
      var p := B.GetPayload(fs[0]);
      var next := Overlay(buf, start, p);
      TilesPlace(next, fs[1..], End(fs[0]), total);
      OverlaySplices(buf, start, p);
      PayloadsCons(fs);
      assert next[..End(fs[0])] == buf[..start] + p;
      assert next[total..] == buf[total..];
    }
  }

  lemma PayloadsCons(fs: seq<Bundle>)
    requires |fs| > 0
    ensures B.Concat(B.Payloads(fs)) == B.GetPayload(fs[0]) + B.Concat(B.Payloads(fs[1..]))
  {
    assert B.Payloads(fs) == [B.GetPayload(fs[0])] + B.Payloads(fs[1..]);
  }

  /** Offsets strictly increase along the sequence. */
  predicate Ascending(fs: seq<Bundle>) {
    forall i, j :: 0 <= i < j < |fs| ==> Offset(fs[i]) < Offset(fs[j])
  }

  /** The tail of a sorted or ascending sequence is sorted or ascending. */
  lemma OrderedTail(fs: seq<Bundle>)
    requires |fs| > 0
    ensures SortedByOffset(fs) ==> SortedByOffset(fs[1..])
    ensures Ascending(fs) ==> Ascending(fs[1..])
  {
    assert forall i :: 0 <= i < |fs| - 1 ==> fs[1..][i] == fs[i + 1];
  }

  /** Data that fits in the buffer replaces exactly the bytes it covers. */
  lemma OverlaySplices(buf: seq<uint8>, offset: nat, data: seq<uint8>)
    requires offset + |data| <= |buf|
    ensures Overlay(buf, offset, data) == buf[..offset] + data + buf[offset + |data|..]
  {
  }

  /** A sequence sorted by offset that holds the same fragments as an
      ascending one is that sequence. */
  lemma {:induction false} SortedUnique(s: seq<Bundle>, t: seq<Bundle>)
    requires SortedByOffset(s) && Ascending(t) && multiset(s) == multiset(t)
    ensures s == t
    decreases |t|
  {
    assert |s| == |multiset(s)| == |t|;
    if |t| > 0 {
      SameHeads(s, t);
      assert s == [s[0]] + s[1..] && t == [t[0]] + t[1..];
      assert multiset(s) == multiset{s[0]} + multiset(s[1..]);
      assert multiset(t) == multiset{t[0]} + multiset(t[1..]);
      assert multiset(s[1..]) == multiset(s) - multiset{s[0]};
      assert multiset(t[1..]) == multiset(t) - multiset{t[0]};
      OrderedTail(s);
      OrderedTail(t);
      SortedUnique(s[1..], t[1..]);
    }
  }

  /** Both start with the fragment of least offset. */
  lemma SameHeads(s: seq<Bundle>, t: seq<Bundle>)
    requires SortedByOffset(s) && Ascending(t) && multiset(s) == multiset(t) && |t| > 0
    ensures |s| > 0 && s[0] == t[0]
  {
    assert |s| == |multiset(s)| == |t|;
    assert s[0] in multiset(t) && t[0] in multiset(s);
    var j :| 0 <= j < |t| && t[j] == s[0];
    var m :| 0 <= m < |s| && s[m] == t[0];
    SortedFirst(s, m);
    AscendingFirst(t, j);
    AscendingInjective(t, 0, j);
  }

  lemma SortedFirst(s: seq<Bundle>, m: nat)
    requires SortedByOffset(s) && m < |s|
    ensures Offset(s[0]) <= Offset(s[m])
  {
  }

  lemma AscendingFirst(t: seq<Bundle>, j: nat)
    requires Ascending(t) && j < |t|
    ensures Offset(t[0]) <= Offset(t[j])
  {
  }

  /** Distinct positions of an ascending sequence hold distinct offsets. */
  lemma AscendingInjective(t: seq<Bundle>, i: nat, j: nat)
    requires Ascending(t) && i < |t| && j < |t| && Offset(t[i]) == Offset(t[j])
    ensures i == j
  {
  }

  /** The fragments of one bundle fed to the sets in order: what the sets
      hold after them, and what the last one yields. */
  function AddFragments(sets: FragmentSets, fs: seq<Bundle>): (FragmentSets, Option<Bundle>)
    decreases |fs|
  {
    if |fs| == 0 then (sets, None)
    else AddFragment(AddFragments(sets, fs[..|fs| - 1]).0, fs[|fs| - 1])
  }

  /** The fragments of one bundle in order: a tiling of the whole unit by
      fragments of one set, each giving the unit's length. */
  predicate OneUnit(fs: seq<Bundle>, key: BundleId.IdKey, total: nat) {
    Tiles(fs, 0, total) &&
    forall i :: 0 <= i < |fs| ==> B.IsFragment(fs[i]) && SetKey(fs[i]) == key && fs[i].primary.totalLength == total
  }

  /** The set of the unit after its first `n` fragments: those fragments,
      the unit's length, and complete only once all are in. */
  predicate HoldsPrefix(sets: FragmentSets, fs: seq<Bundle>, key: BundleId.IdKey, total: nat, n: nat)
    requires n <= |fs|
  {
    if n == 0 then key !in sets || |sets[key].fragments| == 0
    else key in sets && sets[key].totalLength == total && multiset(sets[key].fragments) == multiset(fs[..n]) &&
         (sets[key].complete <==> n == |fs|)
  }

  /** Two sequences holding the same fragments have the same members. */
  lemma SameMembers(xs: seq<Bundle>, ys: seq<Bundle>)
    requires multiset(xs) == multiset(ys)
    ensures forall g :: g in xs <==> g in ys
  {
    forall g ensures g in xs <==> g in ys {
      assert g in xs <==> g in multiset(xs);
      assert g in ys <==> g in multiset(ys);
    }
  }

  /** Every fragment of a tiling before the `n`th ends where that one
      starts or earlier. */
  lemma PrefixEnds(fs: seq<Bundle>, total: nat, n: nat, g: Bundle)
    requires Tiles(fs, 0, total) && n < |fs| && g in fs[..n]
    ensures End(g) <= Offset(fs[n])
  {
    TilesOrdered(fs, 0, total);
    var i :| 0 <= i < n && fs[..n][i] == g;
  }

  /** Some byte the first `n + 1` fragments of a longer tiling need is in
      none of them: the start of the next one. */
  lemma PrefixLeavesGap(fs: seq<Bundle>, total: nat, n: nat, frags: seq<Bundle>)
    requires Tiles(fs, 0, total) && n + 1 < |fs| && multiset(frags) == multiset(fs[..n + 1])
    ensures !forall k :: Needed(frags, total, k) ==> Covers(frags, k)
  {
    TilesOrdered(fs, 0, total);
    SameMembers(frags, fs[..n + 1]);
    var k := Offset(fs[n + 1]);
    assert Needed(frags, total, k);
    forall g | g in frags ensures End(g) <= k {
      PrefixEnds(fs, total, n + 1, g);
    }
  }

  /** All the fragments of a tiling cover every byte reassembly needs. */
  lemma WholeCovered(fs: seq<Bundle>, total: nat, frags: seq<Bundle>)
    requires Tiles(fs, 0, total) && multiset(frags) == multiset(fs)
    ensures forall k :: Needed(frags, total, k) ==> Covers(frags, k)
  {
    TilesOrdered(fs, 0, total);
    SameMembers(frags, fs);
    forall g | g in frags ensures Offset(g) < total {
      var i :| 0 <= i < |fs| && fs[i] == g;
    }
    forall k: nat | Needed(frags, total, k) ensures Covers(frags, k) {
      TilesCover(fs, 0, total, k);
    }
  }

  /** The set `AddFragment` works on for the next fragment of a unit: the
      prefix so far, not complete, with the unit's length; and that
      fragment's offset is new to it. */
  lemma FeedInfo(sets: FragmentSets, fs: seq<Bundle>, key: BundleId.IdKey, total: nat, n: nat)
    requires OneUnit(fs, key, total) && n < |fs| && HoldsPrefix(sets, fs, key, total, n)
    ensures var info := SetFor(sets, fs[n]);
            multiset(info.fragments) == multiset(fs[..n]) && !info.complete && info.totalLength == total &&
            !HasOffset(info.fragments, Offset(fs[n]))
  {
    var f := fs[n];
    var info := SetFor(sets, f);
    TilesOrdered(fs, 0, total);
    SameMembers(info.fragments, fs[..n]);
    forall j | 0 <= j < |info.fragments| ensures Offset(info.fragments[j]) != Offset(f) {
      assert info.fragments[j] in info.fragments;
      PrefixEnds(fs, total, n, info.fragments[j]);
    }
  }

  /** Reassembly of a set holding the first `n + 1` fragments of a
      tiling: it keeps them and yields a bundle, completing the set,
      exactly when they are all of them. */
  lemma GrowStep(info: FragmentInfo, fs: seq<Bundle>, total: nat, n: nat)
    requires Tiles(fs, 0, total) && n < |fs|
    requires multiset(info.fragments) == multiset(fs[..n + 1]) && !info.complete && info.totalLength == total
    ensures |info.fragments| > 0
    ensures TryReassemble(info).0.totalLength == total
    ensures multiset(TryReassemble(info).0.fragments) == multiset(fs[..n + 1])
    ensures TryReassemble(info).0.complete <==> n + 1 == |fs|
    ensures TryReassemble(info).1.Some? <==> n + 1 == |fs|
    ensures TryReassemble(info).1.Some? ==> Rebuilt(TryReassemble(info).0.fragments, total, TryReassemble(info).1.value)
  {
    assert |info.fragments| == |multiset(fs[..n + 1])| == n + 1;
    ReassemblesIffCovered(info);
    TryReassembleBuilds(info);
    if n + 1 < |fs| {
      PrefixLeavesGap(fs, total, n, info.fragments);
    } else {
      assert fs[..n + 1] == fs;
      WholeCovered(fs, total, info.fragments);
    }
  }

  /** Adding the next fragment of a unit keeps its set holding the prefix,
      and yields a bundle exactly when it is the last one. */
  lemma FeedStep(sets: FragmentSets, fs: seq<Bundle>, key: BundleId.IdKey, total: nat, n: nat)
    requires OneUnit(fs, key, total) && n < |fs| && HoldsPrefix(sets, fs, key, total, n)
    ensures HoldsPrefix(AddFragment(sets, fs[n]).0, fs, key, total, n + 1)
    ensures AddFragment(sets, fs[n]).1.Some? <==> n + 1 == |fs|
    ensures AddFragment(sets, fs[n]).1.Some? ==>
              Rebuilt(AddFragment(sets, fs[n]).0[key].fragments, total, AddFragment(sets, fs[n]).1.value)
  {
    var f := fs[n];
    var info := SetFor(sets, f);
    FeedInfo(sets, fs, key, total, n);
    var grown := info.(fragments := info.fragments + [f]);
    assert fs[..n + 1] == fs[..n] + [f];
    assert multiset(grown.fragments) == multiset(fs[..n + 1]);
    AddFragmentAppends(sets, f);
    GrowStep(grown, fs, total, n);
  }

  /** After the first `n` fragments of a unit, fed to sets holding nothing
      for it, its set holds them; only the last one yields a bundle. */
  lemma {:induction false} FeedPrefix(sets: FragmentSets, fs: seq<Bundle>, key: BundleId.IdKey, total: nat, n: nat)
    requires OneUnit(fs, key, total) && 1 <= n <= |fs| && (key !in sets || |sets[key].fragments| == 0)
    ensures HoldsPrefix(AddFragments(sets, fs[..n]).0, fs, key, total, n)
    ensures AddFragments(sets, fs[..n]).1.Some? <==> n == |fs|
    ensures AddFragments(sets, fs[..n]).1.Some? ==>
              Rebuilt(AddFragments(sets, fs[..n]).0[key].fragments, total, AddFragments(sets, fs[..n]).1.value)
    decreases n
  {
    var before := AddFragments(sets, fs[..n - 1]).0;
    assert HoldsPrefix(before, fs, key, total, n - 1) by {
      if n == 1 {
        assert fs[..0] == [];
      } else {
        FeedPrefix(sets, fs, key, total, n - 1);
      }
    }
    AddFragmentsLast(sets, fs, n);
    FeedStep(before, fs, key, total, n - 1);
  }

  /** Feeding the first `n` fragments is feeding the first `n - 1`, then
      fragment `n - 1`. */
  lemma AddFragmentsLast(sets: FragmentSets, fs: seq<Bundle>, n: nat)
    requires 1 <= n <= |fs|
    ensures AddFragments(sets, fs[..n]) == AddFragment(AddFragments(sets, fs[..n - 1]).0, fs[n - 1])
  {
    var prefix := fs[..n];
    assert |prefix| == n;
    assert prefix[..n - 1] == fs[..n - 1] && prefix[n - 1] == fs[n - 1];
    var before := AddFragments(sets, prefix[..n - 1]).0;
    assert AddFragments(sets, prefix) == AddFragment(before, prefix[n - 1]);
  }

  /** The pieces lie end to end from `start`, each non-empty, and the
      last ends at `total`. */
  predicate Chain(ps: seq<B.Piece>, start: nat, total: nat)
    decreases |ps|
  {
    if |ps| == 0 then start == total
    else ps[0].offset == start && ps[0].size > 0 && Chain(ps[1..], start + ps[0].size, total)
  }

  /** The slices `Pieces` names lie end to end from `offset` to the end. */
  lemma {:induction false} PiecesChain(total: nat, step: nat, offset: nat)
    requires step > 0 && offset <= total
    ensures Chain(B.Pieces(total, step, offset), offset, total)
    decreases total - offset
  {
    if offset < total {
      var size := if step < total - offset then step else total - offset;
      var ps := B.Pieces(total, step, offset);
      assert ps[0] == B.Piece(offset, size) && ps[1..] == B.Pieces(total, step, offset + size);
      PiecesChain(total, step, offset + size);
    }
  }

  /** Each fragment starts at its piece's offset and holds its piece's
      number of bytes. */
  predicate Laid(fs: seq<Bundle>, ps: seq<B.Piece>) {
    |fs| == |ps| && forall i :: 0 <= i < |fs| ==> Offset(fs[i]) == ps[i].offset && |B.GetPayload(fs[i])| == ps[i].size
  }

  /** Fragments laid on a chain of pieces tile the same range. */
  lemma {:induction false} LaidTiles(fs: seq<Bundle>, ps: seq<B.Piece>, start: nat, total: nat)
    requires Laid(fs, ps) && Chain(ps, start, total)
    ensures Tiles(fs, start, total)
    decreases |fs|
  {
    if |fs| > 0 {
      assert Laid(fs[1..], ps[1..]) by {
        forall i | 0 <= i < |fs| - 1 ensures fs[1..][i] == fs[i + 1] && ps[1..][i] == ps[i + 1] {
        }
      }
      LaidTiles(fs[1..], ps[1..], start + ps[0].size, total);
    }
  }

  /** The fragments of the pieces are laid on them. */
  lemma FragmentsLaid(b: Bundle, payloadBlock: Block, extra: seq<Block>, ps: seq<B.Piece>)
    requires |payloadBlock.data| < TWO_TO_THE_64
    requires forall i :: 0 <= i < |ps| ==> ps[i].offset + ps[i].size <= |payloadBlock.data|
    ensures Laid(B.MakeFragments(b, payloadBlock, extra, ps), ps)
  {
    var fs := B.MakeFragments(b, payloadBlock, extra, ps);
    forall i | 0 <= i < |fs| ensures Offset(fs[i]) == ps[i].offset && |B.GetPayload(fs[i])| == ps[i].size {
      B.FragmentAt(b, payloadBlock, extra, ps, i);
    }
  }

  /** The split tiles the payload. */
  lemma SplitTiles(b: Bundle, payloadBlock: Block, budget: nat)
    requires |payloadBlock.data| < TWO_TO_THE_64 && budget > 0
    ensures Tiles(SplitPayload(b, payloadBlock, budget), 0, |payloadBlock.data|)
  {
    var ps := B.Pieces(|payloadBlock.data|, budget, 0);
    SplitPieces(b, payloadBlock, budget);
    PiecesChain(|payloadBlock.data|, budget, 0);
    FragmentsLaid(b, payloadBlock, Copies(B.ReplicatedBlocks(b.blocks)), ps);
    LaidTiles(SplitPayload(b, payloadBlock, budget), ps, 0, |payloadBlock.data|);
  }

  /** Along a chain each piece ends where the next starts, and the last
      ends at the total. */
  lemma {:induction false} ChainLinks(ps: seq<B.Piece>, start: nat, total: nat)
    requires Chain(ps, start, total) && |ps| > 0
    ensures forall i :: 0 <= i < |ps| - 1 ==> ps[i].offset + ps[i].size == ps[i + 1].offset
    ensures ps[|ps| - 1].offset + ps[|ps| - 1].size == total
    decreases |ps|
  {
    if |ps| > 1 {
      ChainLinks(ps[1..], start + ps[0].size, total);
      assert forall i :: 1 <= i < |ps| ==> ps[1..][i - 1] == ps[i];
    }
  }

  lemma MulSucc(i: nat, step: nat)
    ensures (i + 1) * step == i * step + step
  {
  }

  /** The `i`th slice starts inside the data and holds one step of it, or,
      if it is the last, the rest. */
  lemma PieceSizeAt(total: nat, step: nat, i: nat)
    requires step > 0 && i < |B.Pieces(total, step, 0)|
    ensures i * step < total
    ensures B.Pieces(total, step, 0)[i].size == PieceSize(total, step, i, |B.Pieces(total, step, 0)|)
  {
    var ps := B.Pieces(total, step, 0);
    PiecesChain(total, step, 0);
    ChainLinks(ps, 0, total);
    PieceOffsetAt(total, step, i);
    if i + 1 < |ps| {
      PieceOffsetAt(total, step, i + 1);
      MulSucc(i, step);
    }
  }

  /** The `i`th fragment of the split starts inside the payload and holds
      one budget of it, or, if it is the last, the rest. */
  lemma SplitSizes(b: Bundle, payloadBlock: Block, budget: nat, i: nat)
    requires |payloadBlock.data| < TWO_TO_THE_64 && budget > 0
    requires i < |SplitPayload(b, payloadBlock, budget)|
    ensures i * budget < |payloadBlock.data|
    ensures |B.GetPayload(SplitPayload(b, payloadBlock, budget)[i])| ==
              PieceSize(|payloadBlock.data|, budget, i, |SplitPayload(b, payloadBlock, budget)|)
  {
    var ps := B.Pieces(|payloadBlock.data|, budget, 0);
    SplitPieces(b, payloadBlock, budget);
    FragmentsLaid(b, payloadBlock, Copies(B.ReplicatedBlocks(b.blocks)), ps);
    PieceSizeAt(|payloadBlock.data|, budget, i);
  }

  /** `CalculateFragmentPayloadSize` gives the payload length of each
      fragment `FragmentBundle` cuts. */
  lemma FragmentPayloadSizes(b: Bundle, maxFragmentSize: nat, i: nat)
    requires |B.GetPayload(b)| < TWO_TO_THE_64 && maxFragmentSize < TWO_TO_THE_64
    requires i < |FragmentBundle(b, maxFragmentSize)|
    ensures |FragmentBundle(b, maxFragmentSize)| < TWO_TO_THE_64
    ensures CalculateFragmentPayloadSize(b, maxFragmentSize, i, |FragmentBundle(b, maxFragmentSize)|) ==
              |B.GetPayload(FragmentBundle(b, maxFragmentSize)[i])|
  {
    FragmentBundleSplits(b, maxFragmentSize);
    var payloadBlock := B.GetBlockByType(b, PAYLOAD_BLOCK).value;
    var budget := Budget(maxFragmentSize, Overhead(b));
    var n := |SplitPayload(b, payloadBlock, budget)|;
    SplitSizes(b, payloadBlock, budget, n - 1);
    SplitSizes(b, payloadBlock, budget, i);
    SizeTPieceSizeExact(|payloadBlock.data|, budget, i, n);
  }

  /** Every fragment of the split belongs to the set of the bundle it was
      cut from. */
  lemma SplitSameSet(b: Bundle, payloadBlock: Block, budget: nat)
    requires |payloadBlock.data| < TWO_TO_THE_64 && budget > 0
    ensures var fs := SplitPayload(b, payloadBlock, budget);
            forall i :: 0 <= i < |fs| ==> SetKey(fs[i]) == SetKey(b)
  {
    var fs := SplitPayload(b, payloadBlock, budget);
    forall i | 0 <= i < |fs| ensures SetKey(fs[i]) == SetKey(b) {
      SplitPrimary(b, payloadBlock, budget, i);
    }
  }

  /** The split is one unit: a tiling of the payload by fragments that all
      belong to the bundle's set and give the payload's length. */
  lemma SplitIsOneUnit(b: Bundle, payloadBlock: Block, budget: nat)
    requires |payloadBlock.data| < TWO_TO_THE_64 && budget > 0
    ensures OneUnit(SplitPayload(b, payloadBlock, budget), SetKey(b), |payloadBlock.data|)
  {
    SplitTiles(b, payloadBlock, budget);
    SplitSameSet(b, payloadBlock, budget);
  }

  /** Fed in order to sets holding nothing for it, the fragments of a unit
      yield nothing until the last, which yields a whole bundle holding
      their payloads joined, with the first one's primary block. */
  lemma UnitReassembles(sets: FragmentSets, fs: seq<Bundle>, key: BundleId.IdKey, total: nat)
    requires OneUnit(fs, key, total) && |fs| > 0 && (key !in sets || |sets[key].fragments| == 0)
    ensures forall n :: 1 <= n < |fs| ==> AddFragments(sets, fs[..n]).1.None?
    ensures var out := AddFragments(sets, fs).1;
            out.Some? && !B.IsFragment(out.value) && B.CheckCRC(out.value) &&
            B.GetPayload(out.value) == B.Concat(B.Payloads(fs)) &&
            out.value.primary == Primary.SetFlag(fs[0].primary, Primary.BUNDLE_IS_A_FRAGMENT, false).(crc := out.value.primary.crc)
  {
    forall n | 1 <= n < |fs| ensures AddFragments(sets, fs[..n]).1.None? {
      FeedPrefix(sets, fs, key, total, n);
    }
    UnitLastYields(sets, fs, key, total);
    TilesPlaceWhole(fs, total);
  }

  lemma UnitLastYields(sets: FragmentSets, fs: seq<Bundle>, key: BundleId.IdKey, total: nat)
    requires OneUnit(fs, key, total) && |fs| > 0 && (key !in sets || |sets[key].fragments| == 0)
    ensures var out := AddFragments(sets, fs).1;
            out.Some? && Rebuilt(fs, total, out.value)
  {
    FeedPrefix(sets, fs, key, total, |fs|);
    assert fs[..|fs|] == fs;
    TilesOrdered(fs, 0, total);
    SortedUnique(AddFragments(sets, fs).0[key].fragments, fs);
  }

  /** Placing a tiling of the whole unit into a zeroed buffer of its
      length gives the payloads joined. */
  lemma TilesPlaceWhole(fs: seq<Bundle>, total: nat)
    requires Tiles(fs, 0, total)
    ensures PlaceAll(Zeros(total), fs) == B.Concat(B.Payloads(fs))
  {
    TilesPlace(Zeros(total), fs, 0, total);
    assert Zeros(total)[..0] == [] && Zeros(total)[total..] == [];
  }

  /** Fed in order to sets holding nothing for the bundle, the fragments
      `FragmentBundle` cuts yield nothing until the last, which yields a
      whole bundle with the original identifier and payload. */
  lemma FragmentsReassemble(b: Bundle, maxFragmentSize: nat, sets: FragmentSets)
    requires |B.GetPayload(b)| < TWO_TO_THE_64 && FragmentBundle(b, maxFragmentSize) != []
    requires SetKey(b) !in sets || |sets[SetKey(b)].fragments| == 0
    ensures var fs := FragmentBundle(b, maxFragmentSize);
            forall n :: 1 <= n < |fs| ==> AddFragments(sets, fs[..n]).1.None?
    ensures var out := AddFragments(sets, FragmentBundle(b, maxFragmentSize)).1;
            out.Some? && B.GetPayload(out.value) == B.GetPayload(b) &&
            !B.IsFragment(out.value) && B.CheckCRC(out.value) &&
            B.GetId(out.value) == B.GetId(b).(isFragment := false, fragmentOffset := 0)
  {
    var fs := FragmentBundle(b, maxFragmentSize);
    FragmentBundleSplits(b, maxFragmentSize);
    var payloadBlock := B.GetBlockByType(b, PAYLOAD_BLOCK).value;
    var budget := Budget(maxFragmentSize, Overhead(b));
    SplitIsOneUnit(b, payloadBlock, budget);
    UnitReassembles(sets, fs, SetKey(b), |payloadBlock.data|);
    SplitJoins(b, payloadBlock, budget);
    SplitPrimary(b, payloadBlock, budget, 0);
  }
}

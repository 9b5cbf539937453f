/** The routing base (`routing.cc`): bundle descriptors that remember which
    nodes a bundle went to, peer liveness, and the sending step shared by the
    routers, which stamps the previous-node block and hands the bundle to the
    first convergence-layer sender that can reach the endpoint. */
module Routing {
  import opened Wrappers
  import opened BoundedInts
  import opened BlockTypeCodes
  import Endpoint
  import DtnTime
  import BundleId
  import Primary = PrimaryBlock
  import Canonical = CanonicalBlock
  import B = Bundle
  import Store = BundleStore

  /** `NodeID` is an alias of `EndpointID`. */
  type NodeId = Endpoint.EndpointId

  type Key = BundleId.IdKey

  /** How recently a peer must have been seen to count as active: five
      minutes, in simulation nanoseconds. */
  const ACTIVE_WINDOW: nat := 300_000_000_000

  // Bundle descriptors

  /** `BundleDescriptor`: the bundle, its destination, the nodes it was sent
      to, and when it expires. */
  datatype BundleDescriptor = BundleDescriptor(
    id: BundleId.BundleId,
    receiver: Endpoint.EndpointId,
    sentNodes: seq<NodeId>,
    expirationTime: DtnTime.Time)

  /** `SentTo`: some recorded node equals `node` (endpoints compare by URI). */
  predicate SentTo(d: BundleDescriptor, node: NodeId) {
    exists i :: 0 <= i < |d.sentNodes| && Endpoint.Equal(d.sentNodes[i], node)
  }

  /** No node is recorded twice. */
  predicate NoRepeats(nodes: seq<NodeId>) {
    forall i, j :: 0 <= i < j < |nodes| ==> !Endpoint.Equal(nodes[i], nodes[j])
  }

  /** `AddSentNode`: records the node unless it is already recorded. */
  function AddSentNode(d: BundleDescriptor, node: NodeId): (r: BundleDescriptor)
    ensures r.id == d.id && r.receiver == d.receiver && r.expirationTime == d.expirationTime
    ensures forall m :: SentTo(r, m) <==> SentTo(d, m) || Endpoint.Equal(m, node)
    ensures |d.sentNodes| <= |r.sentNodes| <= |d.sentNodes| + 1
    ensures NoRepeats(d.sentNodes) ==> NoRepeats(r.sentNodes)
  {
    if SentTo(d, node) then d
    else
      var r := d.(sentNodes := d.sentNodes + [node]);
      assert forall m :: SentTo(r, m) <== Endpoint.Equal(m, node) by {
        assert r.sentNodes[|d.sentNodes|] == node;
      }
      assert forall m :: SentTo(d, m) ==> SentTo(r, m) by {
        forall m | SentTo(d, m) ensures SentTo(r, m) {
          var i :| 0 <= i < |d.sentNodes| && Endpoint.Equal(d.sentNodes[i], m);
          assert r.sentNodes[i] == d.sentNodes[i];
        }
      }
      r
  }

  /** Adding a node twice is adding it once. */
  lemma AddSentNodeIdempotent(d: BundleDescriptor, node: NodeId)
    ensures AddSentNode(AddSentNode(d, node), node) == AddSentNode(d, node)
  {
  }

  /** `BundleDescriptor::IsExpired`. */
  predicate DescriptorExpired(d: BundleDescriptor, now: DtnTime.Time) {
    now > d.expirationTime
  }

  // Peers

  /** `PeerInfo`: the peer, when it was last seen and discovered, whether it
      is reachable, and how to reach it. */
  datatype PeerInfo = PeerInfo(
    nodeId: NodeId,
    lastSeen: DtnTime.Time,
    receptionTime: DtnTime.Time,
    reachable: bool,
    cla: string,
    endpoint: string)

  /** `PeerInfo::IsActive`: reachable and seen less than five minutes ago. */
  predicate IsActive(p: PeerInfo, now: DtnTime.Time) {
    p.reachable && now - p.lastSeen < ACTIVE_WINDOW
  }

  // Router state

  /** A convergence-layer sender, as an oracle: which endpoints it can reach
      and whether a send succeeds. */
  datatype Sender = Sender(isReachable: string -> bool, send: (B.Bundle, string) -> bool)

  /** The state of a `RoutingAlgorithm`: the local node, the store, the
      known peers keyed by node URI, the descriptors keyed by bundle
      identifier, and the sent and failed counters. */
  datatype Router = Router(
    localNodeId: NodeId,
    store: Store.Store,
    peers: map<string, PeerInfo>,
    descriptors: map<Key, BundleDescriptor>,
    sentBundles: nat,
    failedBundles: nat)

  /** A local node the previous-node block can name. */
  predicate LocalNode(e: NodeId) {
    Endpoint.WellFormed(e) && Endpoint.IsCppString(e.uri)
  }

  /** The router invariant: every peer and descriptor sits under its own key,
      and sent lists never repeat a node. */
  predicate Valid(r: Router) {
    LocalNode(r.localNodeId) && Store.Valid(r.store) &&
    (forall u :: u in r.peers ==> r.peers[u].nodeId.uri == u) &&
    (forall k :: k in r.descriptors ==> BundleId.Key(r.descriptors[k].id) == k) &&
    (forall k :: k in r.descriptors ==> NoRepeats(r.descriptors[k].sentNodes))
  }

  // Descriptors of bundles

  /** `CalculateExpirationTime`: creation time plus lifetime, in 64-bit
      `ns3::Time`. While the instant fits, it lies the lifetime after the
      creation time; past `INT64_MAX` it wraps to a time before the epoch. */
  function CalculateExpirationTime(b: B.Bundle): (t: DtnTime.Time)
    ensures DtnTime.Instant(b.primary.creation) + b.primary.lifetimeMs * Primary.NANOS_PER_MILLISECOND <= INT64_MAX ==>
              t >= DtnTime.ToTime(b.primary.creation) &&
              t - DtnTime.ToTime(b.primary.creation) == b.primary.lifetimeMs * Primary.NANOS_PER_MILLISECOND
    ensures (t - (DtnTime.Instant(b.primary.creation) + b.primary.lifetimeMs * Primary.NANOS_PER_MILLISECOND)) % TWO_TO_THE_64 == 0
    ensures INT64_MAX < DtnTime.Instant(b.primary.creation) + b.primary.lifetimeMs * Primary.NANOS_PER_MILLISECOND < TWO_TO_THE_64 ==>
              t < 0
  {
    Primary.ExpirationTime(b.primary)
  }

  /** `UpdateBundleDescriptor`: the bundle's descriptor, created on first
      use with the destination as receiver, no sent nodes and the bundle's
      expiration time. */
  function UpdateBundleDescriptor(r: Router, b: B.Bundle): (res: (Router, BundleDescriptor))
    ensures BundleId.Key(B.GetId(b)) in r.descriptors ==>
              res == (r, r.descriptors[BundleId.Key(B.GetId(b))])
    ensures BundleId.Key(B.GetId(b)) !in r.descriptors ==>
              res.1 == BundleDescriptor(B.GetId(b), b.primary.destination, [], CalculateExpirationTime(b)) &&
              res.0 == r.(descriptors := r.descriptors[BundleId.Key(B.GetId(b)) := res.1])
  {
    var k := BundleId.Key(B.GetId(b));
    if k in r.descriptors then (r, r.descriptors[k])
    else
      var d := BundleDescriptor(B.GetId(b), b.primary.destination, [], CalculateExpirationTime(b));
      (r.(descriptors := r.descriptors[k := d]), d)
  }

  /** The descriptor `UpdateBundleDescriptor` returns is the one the router
      then holds for the bundle, a second call changes nothing, and the
      router stays valid. */
  lemma UpdateBundleDescriptorStable(r: Router, b: B.Bundle)
    requires Valid(r)
    ensures var (r1, d) := UpdateBundleDescriptor(r, b);
            Valid(r1) && r1.descriptors[BundleId.Key(B.GetId(b))] == d &&
            UpdateBundleDescriptor(r1, b) == (r1, d) &&
            BundleId.Key(d.id) == BundleId.Key(B.GetId(b))
  {
  }

  /** Records a node in the descriptor of a bundle, when the bundle has one;
      the write-back of the descriptor reference callers hold. */
  function MarkSent(r: Router, b: B.Bundle, node: NodeId): (res: Router)
    ensures res == r.(descriptors := res.descriptors)
    ensures res.descriptors.Keys == r.descriptors.Keys
    ensures forall k :: k in r.descriptors && k != BundleId.Key(B.GetId(b)) ==> res.descriptors[k] == r.descriptors[k]
    ensures BundleId.Key(B.GetId(b)) in r.descriptors ==>
              res.descriptors[BundleId.Key(B.GetId(b))] == AddSentNode(r.descriptors[BundleId.Key(B.GetId(b))], node)
  {
    var k := BundleId.Key(B.GetId(b));
    if k in r.descriptors then r.(descriptors := r.descriptors[k := AddSentNode(r.descriptors[k], node)])
    else r
  }

  lemma MarkSentKeepsValid(r: Router, b: B.Bundle, node: NodeId)
    requires Valid(r)
    ensures Valid(MarkSent(r, b, node))
  {
  }

  // The previous-node block

  /** The bundle's first previous-node block is a `PreviousNodeBlock` object
      the cast in `SendBundle` accepts, or there is none. */
  predicate StampableInPlace(b: B.Bundle) {
    var k := B.FirstOfType(b.blocks, PREVIOUS_NODE_BLOCK);
    k == |b.blocks| || b.blocks[k].kind == Canonical.PreviousNode
  }

  /** The block update of `SendBundle`: the first previous-node block, when
      the cast to `PreviousNodeBlock` succeeds, now names the local node;
      otherwise a new previous-node block naming it is appended. */
  function StampPreviousNode(b: B.Bundle, local: NodeId): (r: B.Bundle)
    requires LocalNode(local)
    ensures r.primary == b.primary && B.GetId(r) == B.GetId(b)
    ensures StampableInPlace(b) ==> Stamped(r, local) && StampableInPlace(r)
    ensures |r.blocks| == |b.blocks| || |r.blocks| == |b.blocks| + 1
    ensures forall i :: 0 <= i < |b.blocks| && b.blocks[i].blockType != PREVIOUS_NODE_BLOCK ==> r.blocks[i] == b.blocks[i]
  {
    match B.GetBlockByType(b, PREVIOUS_NODE_BLOCK)
    case Some(block) =>
      if block.kind == Canonical.PreviousNode then
        var k := B.FirstOfType(b.blocks, PREVIOUS_NODE_BLOCK);
        var updated := Canonical.SetPreviousNode(block, local);
        var r := b.(blocks := b.blocks[k := updated]);
        assert B.FirstOfType(r.blocks, PREVIOUS_NODE_BLOCK) == k by {
          FirstOfTypeAfterUpdate(b.blocks, k, updated);
        }
        r
      else
        B.AddBlock(b, Canonical.NewPreviousNodeBlock(local))
    case None =>
      var r := B.AddBlock(b, Canonical.NewPreviousNodeBlock(local));
      assert B.FirstOfType(r.blocks, PREVIOUS_NODE_BLOCK) == |b.blocks| by {
        FirstOfTypeAppended(b.blocks, r.blocks);
      }
      r
  }

  /** The first previous-node block is a `PreviousNodeBlock` holding the
      local node's encoding. */
  predicate Stamped(b: B.Bundle, local: NodeId) {
    var k := B.FirstOfType(b.blocks, PREVIOUS_NODE_BLOCK);
    k < |b.blocks| && b.blocks[k].kind == Canonical.PreviousNode &&
    b.blocks[k].data == Endpoint.ToCbor(local)
  }

  /** A stamped bundle's previous node reads back as the local node. */
  lemma StampedNamesLocal(b: B.Bundle, local: NodeId)
    requires LocalNode(local) && Stamped(b, local)
    ensures B.GetBlockByType(b, PREVIOUS_NODE_BLOCK).Some?
    ensures Canonical.GetPreviousNode(B.GetBlockByType(b, PREVIOUS_NODE_BLOCK).value) == local
  {
    var k := B.FirstOfType(b.blocks, PREVIOUS_NODE_BLOCK);
    Canonical.PreviousNodeRoundTrip(b.blocks[k], local);
    assert Canonical.SetPreviousNode(b.blocks[k], local) == b.blocks[k];
  }

  lemma FirstOfTypeAfterUpdate(blocks: seq<B.Block>, k: nat, block: B.Block)
    requires k == B.FirstOfType(blocks, PREVIOUS_NODE_BLOCK) && k < |blocks|
    requires block.blockType == PREVIOUS_NODE_BLOCK
    ensures B.FirstOfType(blocks[k := block], PREVIOUS_NODE_BLOCK) == k
  {
    var bs := blocks[k := block];
    assert forall i :: 0 <= i < k ==> bs[i] == blocks[i];
    assert bs[k].blockType == PREVIOUS_NODE_BLOCK;
  }

  lemma FirstOfTypeAppended(blocks: seq<B.Block>, r: seq<B.Block>)
    requires B.FirstOfType(blocks, PREVIOUS_NODE_BLOCK) == |blocks|
    requires |r| == |blocks| + 1 && r[..|blocks|] == blocks && r[|blocks|].blockType == PREVIOUS_NODE_BLOCK
    ensures B.FirstOfType(r, PREVIOUS_NODE_BLOCK) == |blocks|
  {
    assert forall i :: 0 <= i < |blocks| ==> r[i] == blocks[i];
  }

  /** Stamping a bundle the cast accepts twice is stamping it once. */
  lemma StampIdempotent(b: B.Bundle, local: NodeId)
    requires LocalNode(local) && StampableInPlace(b)
    ensures StampPreviousNode(StampPreviousNode(b, local), local) == StampPreviousNode(b, local)
  {
    var s := StampPreviousNode(b, local);
    var k := B.FirstOfType(s.blocks, PREVIOUS_NODE_BLOCK);
    assert Canonical.SetPreviousNode(s.blocks[k], local) == s.blocks[k];
    assert s.blocks[k := s.blocks[k]] == s.blocks;
  }

  // Sending

  /** The position of the first sender that reaches the endpoint, or the
      number of senders when none does. */
  function FirstReachable(senders: seq<Sender>, endpoint: string): (k: nat)
    ensures k <= |senders|
    ensures k < |senders| ==> senders[k].isReachable(endpoint)
    ensures forall i :: 0 <= i < k ==> !senders[i].isReachable(endpoint)
  {
    if |senders| == 0 then 0
    else if senders[0].isReachable(endpoint) then 0
    else
      var k := FirstReachable(senders[1..], endpoint);
      assert forall i :: 1 <= i < |senders| ==> senders[i] == senders[1..][i - 1];
      1 + k
  }

  /** The router after a send: counted as sent and recorded in the bundle's
      descriptor, or counted as failed. */
  function Record(r: Router, b: B.Bundle, receiver: NodeId, ok: bool): Router {
    if ok then MarkSent(r, b, receiver).(sentBundles := r.sentBundles + 1)
    else r.(failedBundles := r.failedBundles + 1)
  }

  /** `SendBundle`: the bundle as it leaves (stamped when some sender reaches
      the endpoint, since the stamp is written before the send and whatever
      its outcome), the updated router, and whether the send succeeded. */
  function SendBundle(r: Router, senders: seq<Sender>, b: B.Bundle, receiver: NodeId, endpoint: string)
    : (res: (Router, B.Bundle, bool))
    requires LocalNode(r.localNodeId)
    ensures B.GetId(res.1) == B.GetId(b) && res.1.primary == b.primary
    ensures res.2 <==> exists i :: 0 <= i < |senders| && senders[i].isReachable(endpoint) &&
                                  senders[FirstReachable(senders, endpoint)].send(res.1, endpoint)
    ensures res.2 ==> res.0 == MarkSent(r, b, receiver).(sentBundles := r.sentBundles + 1)
    ensures !res.2 ==> res.0 == r.(failedBundles := r.failedBundles + 1)
    ensures FirstReachable(senders, endpoint) == |senders| ==> res.1 == b
    ensures FirstReachable(senders, endpoint) < |senders| ==> res.1 == StampPreviousNode(b, r.localNodeId)
    ensures res.0 == Record(r, b, receiver, res.2)
  {
    var k := FirstReachable(senders, endpoint);
    if k == |senders| then
      (r.(failedBundles := r.failedBundles + 1), b, false)
    else
      var stamped := StampPreviousNode(b, r.localNodeId);
      if senders[k].send(stamped, endpoint) then
        (MarkSent(r, stamped, receiver).(sentBundles := r.sentBundles + 1), stamped, true)
      else
        (r.(failedBundles := r.failedBundles + 1), stamped, false)
  }

  /** Every send attempt is counted exactly once, as sent or as failed, and
      the router stays valid. */
  lemma SendBundleCounts(r: Router, senders: seq<Sender>, b: B.Bundle, receiver: NodeId, endpoint: string)
    requires Valid(r)
    ensures var (r1, _, ok) := SendBundle(r, senders, b, receiver, endpoint);
            Valid(r1) && r1.sentBundles + r1.failedBundles == r.sentBundles + r.failedBundles + 1 &&
            r1.store == r.store && r1.peers == r.peers && r1.localNodeId == r.localNodeId &&
            (ok ==> r1.sentBundles == r.sentBundles + 1) && (!ok ==> r1.descriptors == r.descriptors)
  {
    MarkSentKeepsValid(r, b, receiver);
  }

  /** After a successful send the receiver is in the bundle's sent list,
      when the bundle has a descriptor. */
  lemma SentAfterSuccess(r: Router, senders: seq<Sender>, b: B.Bundle, receiver: NodeId, endpoint: string)
    requires LocalNode(r.localNodeId)
    requires SendBundle(r, senders, b, receiver, endpoint).2
    requires BundleId.Key(B.GetId(b)) in r.descriptors
    ensures SentTo(SendBundle(r, senders, b, receiver, endpoint).0.descriptors[BundleId.Key(B.GetId(b))], receiver)
  {
  }

  /** The bundle write-back: stamping changes a stored bundle through the
      pointer the store holds, so the store then holds the stamped bundle. */
  function WriteBack(s: Store.Store, b: B.Bundle): (r: Store.Store)
    ensures r.maxBundles == s.maxBundles && r.bundles.Keys == s.bundles.Keys
    ensures Store.KeyOf(b) in s.bundles ==> r.bundles[Store.KeyOf(b)] == b
    ensures forall k :: k in s.bundles && k != Store.KeyOf(b) ==> r.bundles[k] == s.bundles[k]
  {
    if Store.KeyOf(b) in s.bundles then s.(bundles := s.bundles[Store.KeyOf(b) := b]) else s
  }

  lemma WriteBackKeepsValid(s: Store.Store, b: B.Bundle)
    requires Store.Valid(s)
    ensures Store.Valid(WriteBack(s, b))
  {
  }

  // What the dispatchers share

  /** The key of the descriptor a bundle with this primary block has. */
  function DescKey(pb: Primary.PrimaryBlock): Key {
    BundleId.Key(B.GetId(B.Bundle(pb, [])))
  }

  lemma DescKeyOfBundle(b: B.Bundle)
    ensures DescKey(b.primary) == BundleId.Key(B.GetId(b)) == Store.KeyOf(b)
  {
  }

  /** One `SendBundle` call made while dispatching: which bundle, to which
      peer, and whether it succeeded. */
  datatype Attempt = Attempt(bundle: Key, peer: NodeId, ok: bool)

  /** The peer map's iteration order: every key exactly once. */
  predicate EnumeratesPeers(order: seq<string>, peers: map<string, PeerInfo>) {
    (forall u :: u in peers ==> u in order) &&
    (forall i :: 0 <= i < |order| ==> order[i] in peers) &&
    (forall i, j :: 0 <= i < j < |order| ==> order[i] != order[j])
  }

  /** The active peers in iteration order, as the dispatchers collect them. */
  function ActivePeers(peers: map<string, PeerInfo>, order: seq<string>, now: DtnTime.Time): (r: seq<PeerInfo>)
    requires forall i :: 0 <= i < |order| ==> order[i] in peers
    ensures forall i :: 0 <= i < |r| ==> IsActive(r[i], now)
    ensures forall i :: 0 <= i < |r| ==> exists j :: 0 <= j < |order| && r[i] == peers[order[j]]
    ensures forall j :: 0 <= j < |order| && IsActive(peers[order[j]], now) ==> peers[order[j]] in r
    decreases |order|
  {
    if |order| == 0 then []
    else
      var rest := ActivePeers(peers, order[1..], now);
      assert forall j :: 1 <= j < |order| ==> order[j] == order[1..][j - 1];
      var p := peers[order[0]];
      if IsActive(p, now) then [p] + rest else rest
  }

  /** With no active peer there is nothing to collect. */
  lemma {:induction false} ActivePeersNone(peers: map<string, PeerInfo>, order: seq<string>, now: DtnTime.Time)
    requires forall i :: 0 <= i < |order| ==> order[i] in peers
    requires forall u :: u in peers ==> !IsActive(peers[u], now)
    ensures ActivePeers(peers, order, now) == []
    decreases |order|
  {
    if |order| > 0 {
      ActivePeersNone(peers, order[1..], now);
    }
  }

  /** Every active peer is the entry of some key of the peer map. */
  lemma ActivePeerKey(peers: map<string, PeerInfo>, order: seq<string>, now: DtnTime.Time, q: nat) returns (u: string)
    requires forall i :: 0 <= i < |order| ==> order[i] in peers
    requires q < |ActivePeers(peers, order, now)|
    ensures u in peers && peers[u] == ActivePeers(peers, order, now)[q] && IsActive(peers[u], now)
  {
    var j :| 0 <= j < |order| && ActivePeers(peers, order, now)[q] == peers[order[j]];
    u := order[j];
  }

  /** No two peers share a node identifier. */
  predicate DistinctPeers(ps: seq<PeerInfo>) {
    forall i, j :: 0 <= i < j < |ps| ==> !Endpoint.Equal(ps[i].nodeId, ps[j].nodeId)
  }

  /** The active peers of a valid router are distinct nodes. */
  lemma {:induction false} ActivePeersDistinct(peers: map<string, PeerInfo>, order: seq<string>, now: DtnTime.Time)
    requires forall u :: u in peers ==> peers[u].nodeId.uri == u
    requires forall i :: 0 <= i < |order| ==> order[i] in peers
    requires forall i, j :: 0 <= i < j < |order| ==> order[i] != order[j]
    ensures DistinctPeers(ActivePeers(peers, order, now))
    decreases |order|
  {
    if |order| > 0 {
      var tail := order[1..];
      ActivePeersDistinct(peers, tail, now);
      var rest := ActivePeers(peers, tail, now);
      var p := peers[order[0]];
      forall i | 0 <= i < |rest| ensures !Endpoint.Equal(p.nodeId, rest[i].nodeId) {
        var j :| 0 <= j < |tail| && rest[i] == peers[tail[j]];
        assert tail[j] == order[j + 1];
      }
    }
  }

  /** The checks both dispatchers make before offering a bundle to a peer:
      the bundle is not for the local node, the peer is not the local node
      (unless it is the destination), and the bundle was not sent to the
      peer already. */
  predicate Offerable(r: Router, pb: Primary.PrimaryBlock, p: PeerInfo) {
    !Endpoint.Equal(pb.destination, r.localNodeId) &&
    !(!Endpoint.Equal(pb.destination, p.nodeId) && Endpoint.Equal(p.nodeId, r.localNodeId)) &&
    !(DescKey(pb) in r.descriptors && SentTo(r.descriptors[DescKey(pb)], p.nodeId))
  }

  /** An offerable peer is never the local node. */
  lemma OfferableNotLocal(r: Router, pb: Primary.PrimaryBlock, p: PeerInfo)
    requires Offerable(r, pb, p)
    ensures !Endpoint.Equal(p.nodeId, r.localNodeId)
  {
  }

  /** A descriptor's later state: same bundle, receiver and expiry, and every
      node sent to before is still recorded. */
  ghost predicate Extends(d: BundleDescriptor, e: BundleDescriptor) {
    e.id == d.id && e.receiver == d.receiver && e.expirationTime == d.expirationTime &&
    forall m :: SentTo(d, m) ==> SentTo(e, m)
  }

  /** How dispatching changes a router's bookkeeping: the local node, the
      peers and the descriptor keys stay, descriptors only extend. */
  ghost predicate Grows(r: Router, s: Router) {
    s.localNodeId == r.localNodeId && s.peers == r.peers &&
    s.descriptors.Keys == r.descriptors.Keys &&
    (forall k :: k in r.descriptors ==> Extends(r.descriptors[k], s.descriptors[k]))
  }

  /** How dispatching changes the store: the same keys, and each stored
      bundle keeps its primary block (only its previous-node block changes). */
  ghost predicate StoreKept(r: Router, s: Router) {
    s.store.maxBundles == r.store.maxBundles &&
    s.store.bundles.Keys == r.store.bundles.Keys &&
    (forall k :: k in r.store.bundles ==> s.store.bundles[k].primary == r.store.bundles[k].primary)
  }

  lemma GrowsTransitive(r: Router, s: Router, t: Router)
    requires Grows(r, s) && Grows(s, t)
    ensures Grows(r, t)
  {
  }

  lemma StoreKeptTransitive(r: Router, s: Router, t: Router)
    requires StoreKept(r, s) && StoreKept(s, t)
    ensures StoreKept(r, t)
  {
  }

  /** A check that passes later passed at the start: sent lists only grow. */
  lemma OfferableEarlier(r: Router, s: Router, pb: Primary.PrimaryBlock, p: PeerInfo)
    requires Grows(r, s) && Offerable(s, pb, p)
    ensures Offerable(r, pb, p)
  {
  }

  /** `SendBundle` on a stored bundle: the stamp lands in the stored bundle
      too, since both hold the same object. */
  function SendStored(r: Router, senders: seq<Sender>, b: B.Bundle, p: PeerInfo): (res: (Router, B.Bundle, bool))
    requires LocalNode(r.localNodeId)
    ensures res.1.primary == b.primary && Store.KeyOf(res.1) == Store.KeyOf(b)
    ensures res.0 == Record(r, b, p.nodeId, res.2).(store := WriteBack(r.store, res.1))
  {
    DescKeyOfBundle(b);
    var (r1, b1, ok) := SendBundle(r, senders, b, p.nodeId, p.endpoint);
    (r1.(store := WriteBack(r1.store, b1)), b1, ok)
  }

  /** Recording a node extends the bundle's descriptor by that node only. */
  lemma MarkSentGrows(r: Router, b: B.Bundle, node: NodeId)
    ensures var s := MarkSent(r, b, node);
            Grows(r, s) &&
            (BundleId.Key(B.GetId(b)) in r.descriptors ==>
               forall m :: SentTo(s.descriptors[BundleId.Key(B.GetId(b))], m) ==>
                             SentTo(r.descriptors[BundleId.Key(B.GetId(b))], m) || Endpoint.Equal(m, node))
  {
    var s := MarkSent(r, b, node);
    forall k | k in r.descriptors ensures Extends(r.descriptors[k], s.descriptors[k]) {
      if k == BundleId.Key(B.GetId(b)) {
        var d := r.descriptors[k];
        assert s.descriptors[k] == AddSentNode(d, node);
      }
    }
  }

  /** A recorded send grows the router: only the bundle's descriptor can
      gain a node, the receiver, which it gains on success. */
  lemma RecordGrows(r: Router, b: B.Bundle, receiver: NodeId, ok: bool)
    ensures var s := Record(r, b, receiver, ok);
            Grows(r, s) && s.store == r.store &&
            (forall k :: k in r.descriptors && k != DescKey(b.primary) ==> s.descriptors[k] == r.descriptors[k]) &&
            (DescKey(b.primary) in r.descriptors ==>
               forall m :: SentTo(s.descriptors[DescKey(b.primary)], m) ==>
                             SentTo(r.descriptors[DescKey(b.primary)], m) || Endpoint.Equal(m, receiver)) &&
            (ok && DescKey(b.primary) in r.descriptors ==> SentTo(s.descriptors[DescKey(b.primary)], receiver))
  {
    DescKeyOfBundle(b);
    if ok {
      MarkSentGrows(r, b, receiver);
    }
  }

  /** One send of a stored bundle grows the router and counts the attempt
      once; the router's bookkeeping is that of the recorded send. */
  lemma SendStoredGrows(r: Router, senders: seq<Sender>, b: B.Bundle, p: PeerInfo)
    requires LocalNode(r.localNodeId)
    ensures var (s, _, ok) := SendStored(r, senders, b, p);
            Grows(r, s) && s.descriptors == Record(r, b, p.nodeId, ok).descriptors &&
            s.sentBundles + s.failedBundles == r.sentBundles + r.failedBundles + 1
  {
    var (s, b1, ok) := SendStored(r, senders, b, p);
    RecordGrows(r, b, p.nodeId, ok);
  }

  /** One send of a stored bundle leaves the sent bundle in the store and
      every stored primary block as it was. */
  lemma SendStoredStore(r: Router, senders: seq<Sender>, b: B.Bundle, p: PeerInfo)
    requires LocalNode(r.localNodeId)
    requires Store.KeyOf(b) in r.store.bundles && r.store.bundles[Store.KeyOf(b)] == b
    ensures var (s, b1, _) := SendStored(r, senders, b, p);
            StoreKept(r, s) && s.store.bundles[Store.KeyOf(b)] == b1
  {
  }

  /** One send of a stored bundle keeps the router valid. */
  lemma SendStoredKeepsValid(r: Router, senders: seq<Sender>, b: B.Bundle, p: PeerInfo)
    requires Valid(r)
    ensures Valid(SendStored(r, senders, b, p).0)
  {
    var (s, b1, ok) := SendStored(r, senders, b, p);
    var r1 := Record(r, b, p.nodeId, ok);
    MarkSentKeepsValid(r, b, p.nodeId);
    assert Valid(r1);
    WriteBackKeepsValid(r1.store, b1);
  }
}

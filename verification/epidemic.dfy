/** Epidemic routing: every bundle goes to every active peer that has not had
    it yet. */

module Epidemic {
  import opened Wrappers
  import Endpoint
  import DtnTime
  import Primary = PrimaryBlock
  import B = Bundle
  import Store = BundleStore
  import R = Routing

  // Notifications

  /** `NotifyNewBundle`: store the bundle; if the store takes it, make sure
      it has a descriptor and record the node it came from as already
      having it. */
  function NotifyNewBundle(r: R.Router, b: Option<B.Bundle>, source: R.NodeId): (res: R.Router)
    ensures !Store.Push(r.store, b).1 ==> res == r
    ensures Store.Push(r.store, b).1 ==>
              var k := R.DescKey(b.value.primary);
              res == r.(store := Store.Push(r.store, b).0, descriptors := res.descriptors) &&
              res.descriptors.Keys == r.descriptors.Keys + {k} &&
              (forall j :: j in r.descriptors && j != k ==> res.descriptors[j] == r.descriptors[j]) &&
              (forall m :: R.SentTo(res.descriptors[k], m) <==>
                             Endpoint.Equal(m, source) || (k in r.descriptors && R.SentTo(r.descriptors[k], m)))
  {
    var (stored, ok) := Store.Push(r.store, b);
    if !ok then r
    else
      // The descriptor reference is updated in place: recording the source
      // in the router's own copy is the same thing.
      var (r1, _) := R.UpdateBundleDescriptor(r.(store := stored), b.value);
      R.DescKeyOfBundle(b.value);
      R.MarkSent(r1, b.value, source)
  }

  /** A new bundle keeps the router valid. */
  lemma NotifyNewBundleKeepsValid(r: R.Router, b: Option<B.Bundle>, source: R.NodeId)
    requires R.Valid(r)
    ensures R.Valid(NotifyNewBundle(r, b, source))
  {
    var (stored, ok) := Store.Push(r.store, b);
    if ok {
      Store.PushKeepsValid(r.store, b);
      var r0 := r.(store := stored);
      assert R.Valid(r0);
      R.UpdateBundleDescriptorStable(r0, b.value);
      var (r1, _) := R.UpdateBundleDescriptor(r0, b.value);
      R.MarkSentKeepsValid(r1, b.value, source);
    }
  }

  /** The node a bundle came from is never offered it afterwards. */
  lemma SourceNotOffered(r: R.Router, b: B.Bundle, source: R.NodeId, p: R.PeerInfo)
    requires Store.Push(r.store, Some(b)).1 && Endpoint.Equal(p.nodeId, source)
    ensures !R.Offerable(NotifyNewBundle(r, Some(b), source), b.primary, p)
  {
    var res := NotifyNewBundle(r, Some(b), source);
    assert R.SentTo(res.descriptors[R.DescKey(b.primary)], p.nodeId);
  }

  /** `NotifyPeerAppeared`: record the peer under its node identifier, then
      dispatch. */
  function NotifyPeerAppeared(r: R.Router, peer: R.PeerInfo, now: DtnTime.Time, senders: seq<R.Sender>,
                              order: seq<Store.Key>, peerOrder: seq<string>): (res: (R.Router, seq<R.Attempt>))
    requires R.LocalNode(r.localNodeId)
    requires Store.Enumerates(order, r.store.bundles)
    requires R.EnumeratesPeers(peerOrder, r.peers[peer.nodeId.uri := peer])
    ensures res.0.peers == r.peers[peer.nodeId.uri := peer]
    ensures res.0.localNodeId == r.localNodeId && res.0.store.bundles.Keys == r.store.bundles.Keys
  {
    DispatchBundles(r.(peers := r.peers[peer.nodeId.uri := peer]), now, senders, order, peerOrder)
  }

  /** `NotifyPeerDisappeared`: forget the peer; nothing else changes. */
  function NotifyPeerDisappeared(r: R.Router, peer: R.NodeId): (res: R.Router)
    ensures res == r.(peers := res.peers)
    ensures forall u :: u in res.peers <==> u in r.peers && u != peer.uri
    ensures forall u :: u in res.peers ==> res.peers[u] == r.peers[u]
  {
    r.(peers := r.peers - {peer.uri})
  }

  lemma PeerNotificationsKeepValid(r: R.Router, peer: R.PeerInfo, gone: R.NodeId)
    requires R.Valid(r)
    ensures R.Valid(r.(peers := r.peers[peer.nodeId.uri := peer]))
    ensures R.Valid(NotifyPeerDisappeared(r, gone))
  {
  }

  // Dispatch

  /** The bundle is the one the store holds under its key: the dispatcher
      works on the stored objects themselves. */
  predicate Stored(r: R.Router, b: B.Bundle) {
    Store.KeyOf(b) in r.store.bundles && r.store.bundles[Store.KeyOf(b)] == b
  }

  /** The inner loop of `DispatchBundles`: offer one bundle to each peer in
      turn, skipping the peers `Offerable` rules out. */
  function Offer(r: R.Router, senders: seq<R.Sender>, b: B.Bundle, peers: seq<R.PeerInfo>)
    : (res: (R.Router, seq<R.Attempt>))
    requires R.LocalNode(r.localNodeId)
    ensures res.0.localNodeId == r.localNodeId && res.0.store.bundles.Keys == r.store.bundles.Keys &&
            res.0.peers == r.peers
    ensures |res.1| <= |peers|
    ensures forall i :: 0 <= i < |res.1| ==> res.1[i].bundle == R.DescKey(b.primary)
    decreases |peers|
  {
    if |peers| == 0 then (r, [])
    else if !R.Offerable(r, b.primary, peers[0]) then Offer(r, senders, b, peers[1..])
    else
      var (r1, b1, ok) := R.SendStored(r, senders, b, peers[0]);
      var (r2, log) := Offer(r1, senders, b1, peers[1..]);
      (r2, [R.Attempt(R.DescKey(b.primary), peers[0].nodeId, ok)] + log)
  }

  /** One bundle of `DispatchBundles`: skipped when its descriptor has
      expired, otherwise offered to the active peers. */
  function DispatchOne(r: R.Router, now: DtnTime.Time, senders: seq<R.Sender>, k: Store.Key,
                       active: seq<R.PeerInfo>): (res: (R.Router, seq<R.Attempt>))
    requires R.LocalNode(r.localNodeId) && k in r.store.bundles
    ensures res.0.localNodeId == r.localNodeId && res.0.store.bundles.Keys == r.store.bundles.Keys &&
            res.0.peers == r.peers
  {
    var b := r.store.bundles[k];
    var d := R.DescKey(b.primary);
    if d in r.descriptors && R.DescriptorExpired(r.descriptors[d], now) then (r, [])
    else Offer(r, senders, b, active)
  }

  /** The outer loop of `DispatchBundles`, over the store's keys in order. */
  function DispatchEach(r: R.Router, now: DtnTime.Time, senders: seq<R.Sender>, keys: seq<Store.Key>,
                        active: seq<R.PeerInfo>): (res: (R.Router, seq<R.Attempt>))
    requires R.LocalNode(r.localNodeId)
    requires forall i :: 0 <= i < |keys| ==> keys[i] in r.store.bundles
    ensures res.0.localNodeId == r.localNodeId && res.0.store.bundles.Keys == r.store.bundles.Keys &&
            res.0.peers == r.peers
    decreases |keys|
  {
    if |keys| == 0 then (r, [])
    else
      var (r1, log1) := DispatchOne(r, now, senders, keys[0], active);
      var (r2, log2) := DispatchEach(r1, now, senders, keys[1..], active);
      (r2, log1 + log2)
  }

  /** `DispatchBundles`: the active peers are collected once, then every
      stored bundle is offered to them. The result holds the router after
      dispatch and the sends made, in order. */
  function DispatchBundles(r: R.Router, now: DtnTime.Time, senders: seq<R.Sender>,
                           order: seq<Store.Key>, peerOrder: seq<string>): (res: (R.Router, seq<R.Attempt>))
    requires R.LocalNode(r.localNodeId)
    requires Store.Enumerates(order, r.store.bundles)
    requires R.EnumeratesPeers(peerOrder, r.peers)
    ensures res.0.localNodeId == r.localNodeId && res.0.store.bundles.Keys == r.store.bundles.Keys &&
            res.0.peers == r.peers
  {
    DispatchEach(r, now, senders, order, R.ActivePeers(r.peers, peerOrder, now))
  }

  // What one bundle's offers do

  /** Offering a bundle grows the router, counts each attempt once, and
      leaves every other bundle's descriptor alone. */
  lemma {:induction false} OfferGrows(r: R.Router, senders: seq<R.Sender>, b: B.Bundle, peers: seq<R.PeerInfo>)
    requires R.LocalNode(r.localNodeId)
    ensures var (s, log) := Offer(r, senders, b, peers);
            R.Grows(r, s) &&
            s.sentBundles + s.failedBundles == r.sentBundles + r.failedBundles + |log| &&
            (forall k :: k in r.descriptors && k != R.DescKey(b.primary) ==> s.descriptors[k] == r.descriptors[k])
    decreases |peers|
  {
    if |peers| > 0 {
      if !R.Offerable(r, b.primary, peers[0]) {
        OfferGrows(r, senders, b, peers[1..]);
      } else {
        var (r1, b1, ok) := R.SendStored(r, senders, b, peers[0]);
        R.SendStoredGrows(r, senders, b, peers[0]);
        R.RecordGrows(r, b, peers[0].nodeId, ok);
        OfferGrows(r1, senders, b1, peers[1..]);
        var (s, _) := Offer(r1, senders, b1, peers[1..]);
        R.GrowsTransitive(r, r1, s);
      }
    }
  }

  /** Offering a stored bundle keeps the store's keys and primary blocks,
      and the router valid. */
  lemma {:induction false} OfferKeepsStore(r: R.Router, senders: seq<R.Sender>, b: B.Bundle, peers: seq<R.PeerInfo>)
    requires R.Valid(r) && Stored(r, b)
    ensures var (s, _) := Offer(r, senders, b, peers);
            R.Valid(s) && R.StoreKept(r, s)
    decreases |peers|
  {
    if |peers| > 0 {
      if !R.Offerable(r, b.primary, peers[0]) {
        OfferKeepsStore(r, senders, b, peers[1..]);
      } else {
        var (r1, b1, ok) := R.SendStored(r, senders, b, peers[0]);
        R.SendStoredStore(r, senders, b, peers[0]);
        R.SendStoredKeepsValid(r, senders, b, peers[0]);
        OfferKeepsStore(r1, senders, b1, peers[1..]);
        var (s, _) := Offer(r1, senders, b1, peers[1..]);
        R.StoreKeptTransitive(r, r1, s);
      }
    }
  }

  /** The node is one of the peers, one the checks let through. */
  ghost predicate OfferedBy(r: R.Router, pb: Primary.PrimaryBlock, peers: seq<R.PeerInfo>, node: R.NodeId) {
    exists j :: 0 <= j < |peers| && peers[j].nodeId == node && R.Offerable(r, pb, peers[j])
  }

  /** Offers justified after a send to the first peer were justified
      before it, and so is the send itself. */
  lemma OfferedByStep(r: R.Router, s: R.Router, pb: Primary.PrimaryBlock, peers: seq<R.PeerInfo>,
                      a: R.Attempt, rest: seq<R.Attempt>)
    requires |peers| > 0 && R.Grows(r, s)
    requires a.peer == peers[0].nodeId && R.Offerable(r, pb, peers[0])
    requires forall i :: 0 <= i < |rest| ==> OfferedBy(s, pb, peers[1..], rest[i].peer)
    ensures forall i :: 0 <= i < |[a] + rest| ==> OfferedBy(r, pb, peers, ([a] + rest)[i].peer)
  {
    forall i | 0 <= i < |[a] + rest| ensures OfferedBy(r, pb, peers, ([a] + rest)[i].peer) {
      if i == 0 {
        assert peers[0].nodeId == a.peer;
      } else {
        var j :| 0 <= j < |peers[1..]| && peers[1..][j].nodeId == rest[i - 1].peer && R.Offerable(s, pb, peers[1..][j]);
        R.OfferableEarlier(r, s, pb, peers[j + 1]);
        assert ([a] + rest)[i] == rest[i - 1];
      }
    }
  }

  /** Skipping the first peer keeps every offer justified. */
  lemma OfferedBySkip(r: R.Router, pb: Primary.PrimaryBlock, peers: seq<R.PeerInfo>, log: seq<R.Attempt>)
    requires |peers| > 0
    requires forall i :: 0 <= i < |log| ==> OfferedBy(r, pb, peers[1..], log[i].peer)
    ensures forall i :: 0 <= i < |log| ==> OfferedBy(r, pb, peers, log[i].peer)
  {
    forall i | 0 <= i < |log| ensures OfferedBy(r, pb, peers, log[i].peer) {
      var j :| 0 <= j < |peers[1..]| && peers[1..][j].nodeId == log[i].peer && R.Offerable(r, pb, peers[1..][j]);
      assert peers[1..][j] == peers[j + 1];
    }
  }

  /** Every attempt goes to one of the peers, one the checks let through at
      the start. */
  lemma {:induction false} OfferAttempts(r: R.Router, senders: seq<R.Sender>, b: B.Bundle, peers: seq<R.PeerInfo>)
    requires R.LocalNode(r.localNodeId)
    ensures forall i :: 0 <= i < |Offer(r, senders, b, peers).1| ==>
              OfferedBy(r, b.primary, peers, Offer(r, senders, b, peers).1[i].peer)
    decreases |peers|
  {
    if |peers| > 0 {
      var tail := peers[1..];
      if !R.Offerable(r, b.primary, peers[0]) {
        OfferAttempts(r, senders, b, tail);
        OfferedBySkip(r, b.primary, peers, Offer(r, senders, b, tail).1);
      } else {
        var (r1, b1, ok) := R.SendStored(r, senders, b, peers[0]);
        R.SendStoredGrows(r, senders, b, peers[0]);
        OfferAttempts(r1, senders, b1, tail);
        OfferedByStep(r, r1, b.primary, peers, R.Attempt(R.DescKey(b.primary), peers[0].nodeId, ok),
                      Offer(r1, senders, b1, tail).1);
      }
    }
  }

  /** After the offers, every peer a send succeeded to is recorded in the
      bundle's descriptor. */
  lemma {:induction false} OfferRecords(r: R.Router, senders: seq<R.Sender>, b: B.Bundle, peers: seq<R.PeerInfo>)
    requires R.LocalNode(r.localNodeId) && R.DescKey(b.primary) in r.descriptors
    ensures var (s, log) := Offer(r, senders, b, peers);
            R.DescKey(b.primary) in s.descriptors &&
            forall i :: 0 <= i < |log| && log[i].ok ==> R.SentTo(s.descriptors[R.DescKey(b.primary)], log[i].peer)
    decreases |peers|
  {
    OfferGrows(r, senders, b, peers);
    if |peers| > 0 {
      var tail := peers[1..];
      if !R.Offerable(r, b.primary, peers[0]) {
        OfferRecords(r, senders, b, tail);
      } else {
        var (r1, b1, ok) := R.SendStored(r, senders, b, peers[0]);
        R.SendStoredGrows(r, senders, b, peers[0]);
        R.RecordGrows(r, b, peers[0].nodeId, ok);
        OfferRecords(r1, senders, b1, tail);
        OfferGrows(r1, senders, b1, tail);
        var (s, rest) := Offer(r1, senders, b1, tail);
        var (_, log) := Offer(r, senders, b, peers);
        assert log == [R.Attempt(R.DescKey(b.primary), peers[0].nodeId, ok)] + rest;
        forall i | 0 <= i < |log| && log[i].ok
          ensures R.SentTo(s.descriptors[R.DescKey(b.primary)], log[i].peer)
        {
          if i > 0 {
            assert log[i] == rest[i - 1];
          }
        }
      }
    }
  }

  /** The bundle's descriptor gains only nodes of the peers offered to. */
  lemma {:induction false} OfferGains(r: R.Router, senders: seq<R.Sender>, b: B.Bundle, peers: seq<R.PeerInfo>)
    requires R.LocalNode(r.localNodeId) && R.DescKey(b.primary) in r.descriptors
    ensures var (s, _) := Offer(r, senders, b, peers);
            R.DescKey(b.primary) in s.descriptors &&
            forall m :: R.SentTo(s.descriptors[R.DescKey(b.primary)], m) ==>
              R.SentTo(r.descriptors[R.DescKey(b.primary)], m) ||
              exists j :: 0 <= j < |peers| && Endpoint.Equal(m, peers[j].nodeId)
    decreases |peers|
  {
    OfferGrows(r, senders, b, peers);
    if |peers| > 0 {
      var tail := peers[1..];
      assert forall j :: 0 <= j < |tail| ==> tail[j] == peers[j + 1];
      if !R.Offerable(r, b.primary, peers[0]) {
        OfferGains(r, senders, b, tail);
      } else {
        var (r1, b1, ok) := R.SendStored(r, senders, b, peers[0]);
        R.SendStoredGrows(r, senders, b, peers[0]);
        R.RecordGrows(r, b, peers[0].nodeId, ok);
        OfferGains(r1, senders, b1, tail);
      }
    }
  }

  /** Some attempt in the log went to the node. */
  ghost predicate Attempted(log: seq<R.Attempt>, node: R.NodeId) {
    exists i :: 0 <= i < |log| && log[i].peer == node
  }

  lemma AttemptedCons(a: R.Attempt, log: seq<R.Attempt>, node: R.NodeId)
    requires Attempted(log, node) || a.peer == node
    ensures Attempted([a] + log, node)
  {
    if a.peer != node {
      var i :| 0 <= i < |log| && log[i].peer == node;
      assert ([a] + log)[i + 1] == log[i];
    } else {
      assert ([a] + log)[0] == a;
    }
  }

  /** With distinct peers, every peer the checks let through at the start is
      offered the bundle: sending to one peer does not record another. */
  lemma {:induction false} OfferComplete(r: R.Router, senders: seq<R.Sender>, b: B.Bundle, peers: seq<R.PeerInfo>)
    requires R.LocalNode(r.localNodeId) && R.DistinctPeers(peers)
    ensures var (_, log) := Offer(r, senders, b, peers);
            forall j :: 0 <= j < |peers| && R.Offerable(r, b.primary, peers[j]) ==> Attempted(log, peers[j].nodeId)
    decreases |peers|
  {
    if |peers| > 0 {
      var tail := peers[1..];
      assert forall j :: 0 <= j < |tail| ==> tail[j] == peers[j + 1];
      assert R.DistinctPeers(tail);
      var (_, log) := Offer(r, senders, b, peers);
      if !R.Offerable(r, b.primary, peers[0]) {
        OfferComplete(r, senders, b, tail);
        assert log == Offer(r, senders, b, tail).1;
      } else {
        var (r1, b1, ok) := R.SendStored(r, senders, b, peers[0]);
        R.SendStoredGrows(r, senders, b, peers[0]);
        R.RecordGrows(r, b, peers[0].nodeId, ok);
        OfferComplete(r1, senders, b1, tail);
        var (_, rest) := Offer(r1, senders, b1, tail);
        var a := R.Attempt(R.DescKey(b.primary), peers[0].nodeId, ok);
        assert log == [a] + rest;
        forall j | 0 <= j < |peers| && R.Offerable(r, b.primary, peers[j])
          ensures Attempted(log, peers[j].nodeId)
        {
          if j > 0 {
            assert !Endpoint.Equal(peers[0].nodeId, peers[j].nodeId);
            assert R.Offerable(r1, b1.primary, tail[j - 1]);
          }
          AttemptedCons(a, rest, peers[j].nodeId);
        }
      }
    }
  }

  // What one bundle's dispatch does

  /** The checks the dispatcher makes for a stored bundle and a peer: the
      bundle's descriptor has not expired, and `Offerable` lets it through. */
  ghost predicate Eligible(r: R.Router, now: DtnTime.Time, k: Store.Key, p: R.PeerInfo) {
    k in r.store.bundles &&
    !(k in r.descriptors && R.DescriptorExpired(r.descriptors[k], now)) &&
    R.Offerable(r, r.store.bundles[k].primary, p)
  }

  /** Checks that pass later passed at the start. */
  lemma EligibleEarlier(r: R.Router, s: R.Router, now: DtnTime.Time, k: Store.Key, p: R.PeerInfo)
    requires R.Grows(r, s) && R.StoreKept(r, s) && Eligible(s, now, k, p)
    ensures Eligible(r, now, k, p)
  {
    R.OfferableEarlier(r, s, s.store.bundles[k].primary, p);
  }

  /** Checks that passed at the start still pass while the bundle's own
      descriptor is untouched. */
  lemma EligibleLater(r: R.Router, s: R.Router, now: DtnTime.Time, k: Store.Key, p: R.PeerInfo)
    requires R.Valid(r) && R.Grows(r, s) && R.StoreKept(r, s) && Eligible(r, now, k, p)
    requires k in r.descriptors ==> s.descriptors[k] == r.descriptors[k]
    ensures Eligible(s, now, k, p)
  {
    assert R.DescKey(r.store.bundles[k].primary) == k by {
      R.DescKeyOfBundle(r.store.bundles[k]);
    }
  }

  /** The stored bundle under a key of a valid router is the one with that key. */
  lemma StoredAt(r: R.Router, k: Store.Key)
    requires R.Valid(r) && k in r.store.bundles
    ensures Stored(r, r.store.bundles[k]) && R.DescKey(r.store.bundles[k].primary) == k
  {
    R.DescKeyOfBundle(r.store.bundles[k]);
  }

  /** Dispatching one bundle grows the router, counts each attempt once and
      leaves the other bundles' descriptors alone. */
  lemma DispatchOneGrows(r: R.Router, now: DtnTime.Time, senders: seq<R.Sender>, k: Store.Key, active: seq<R.PeerInfo>)
    requires R.Valid(r) && k in r.store.bundles
    ensures R.Grows(r, DispatchOne(r, now, senders, k, active).0)
    ensures DispatchOne(r, now, senders, k, active).0.sentBundles + DispatchOne(r, now, senders, k, active).0.failedBundles ==
              r.sentBundles + r.failedBundles + |DispatchOne(r, now, senders, k, active).1|
    ensures forall j :: j in r.descriptors && j != k ==>
              DispatchOne(r, now, senders, k, active).0.descriptors[j] == r.descriptors[j]
  {
    StoredAt(r, k);
    OfferGrows(r, senders, r.store.bundles[k], active);
  }

  /** Dispatching one bundle keeps the router valid and the store's keys and
      primary blocks. */
  lemma DispatchOneKeepsStore(r: R.Router, now: DtnTime.Time, senders: seq<R.Sender>, k: Store.Key, active: seq<R.PeerInfo>)
    requires R.Valid(r) && k in r.store.bundles
    ensures R.Valid(DispatchOne(r, now, senders, k, active).0)
    ensures R.StoreKept(r, DispatchOne(r, now, senders, k, active).0)
  {
    StoredAt(r, k);
    OfferKeepsStore(r, senders, r.store.bundles[k], active);
  }

  /** Some active peer with this node identifier is one the bundle is
      eligible for. */
  ghost predicate EligiblePeer(r: R.Router, now: DtnTime.Time, k: Store.Key, active: seq<R.PeerInfo>, node: R.NodeId) {
    exists q :: 0 <= q < |active| && active[q].nodeId == node && Eligible(r, now, k, active[q])
  }

  /** Every attempt in one bundle's dispatch is for that bundle, to an active
      peer it was eligible for at the start. */
  lemma DispatchOneAttempts(r: R.Router, now: DtnTime.Time, senders: seq<R.Sender>, k: Store.Key, active: seq<R.PeerInfo>)
    requires R.Valid(r) && k in r.store.bundles
    ensures forall i :: 0 <= i < |DispatchOne(r, now, senders, k, active).1| ==>
              DispatchOne(r, now, senders, k, active).1[i].bundle == k &&
              EligiblePeer(r, now, k, active, DispatchOne(r, now, senders, k, active).1[i].peer)
  {
    StoredAt(r, k);
    var b := r.store.bundles[k];
    var log := DispatchOne(r, now, senders, k, active).1;
    if log != [] {
      OfferAttempts(r, senders, b, active);
      assert log == Offer(r, senders, b, active).1;
      forall i | 0 <= i < |log| ensures EligiblePeer(r, now, k, active, log[i].peer) {
        assert OfferedBy(r, b.primary, active, log[i].peer);
      }
    }
  }

  /** After one bundle's dispatch, every successful send is recorded in its
      descriptor. */
  lemma DispatchOneRecords(r: R.Router, now: DtnTime.Time, senders: seq<R.Sender>, k: Store.Key, active: seq<R.PeerInfo>)
    requires R.Valid(r) && k in r.store.bundles && k in r.descriptors
    ensures k in DispatchOne(r, now, senders, k, active).0.descriptors
    ensures forall i :: 0 <= i < |DispatchOne(r, now, senders, k, active).1| && DispatchOne(r, now, senders, k, active).1[i].ok ==>
              R.SentTo(DispatchOne(r, now, senders, k, active).0.descriptors[k], DispatchOne(r, now, senders, k, active).1[i].peer)
  {
    StoredAt(r, k);
    var b := r.store.bundles[k];
    DispatchOneGrows(r, now, senders, k, active);
    OfferRecords(r, senders, b, active);
  }

  /** With distinct peers, every active peer the bundle is eligible for at
      the start is offered it. */
  lemma DispatchOneComplete(r: R.Router, now: DtnTime.Time, senders: seq<R.Sender>, k: Store.Key, active: seq<R.PeerInfo>)
    requires R.Valid(r) && k in r.store.bundles && R.DistinctPeers(active)
    ensures forall q :: 0 <= q < |active| && Eligible(r, now, k, active[q]) ==>
              Attempted(DispatchOne(r, now, senders, k, active).1, active[q].nodeId)
  {
    StoredAt(r, k);
    var b := r.store.bundles[k];
    OfferComplete(r, senders, b, active);
    forall q | 0 <= q < |active| && Eligible(r, now, k, active[q])
      ensures Attempted(DispatchOne(r, now, senders, k, active).1, active[q].nodeId)
    {
      assert DispatchOne(r, now, senders, k, active).1 == Offer(r, senders, b, active).1;
    }
  }

  // What a whole dispatch does

  /** Some attempt in the log sent this bundle to the node. */
  ghost predicate AttemptedPair(log: seq<R.Attempt>, k: Store.Key, node: R.NodeId) {
    exists i :: 0 <= i < |log| && log[i].bundle == k && log[i].peer == node
  }

  lemma AttemptedPairAppend(log1: seq<R.Attempt>, log2: seq<R.Attempt>, k: Store.Key, node: R.NodeId)
    requires AttemptedPair(log1, k, node) || AttemptedPair(log2, k, node)
    ensures AttemptedPair(log1 + log2, k, node)
  {
    if AttemptedPair(log1, k, node) {
      var i :| 0 <= i < |log1| && log1[i].bundle == k && log1[i].peer == node;
      assert (log1 + log2)[i] == log1[i];
    } else {
      var i :| 0 <= i < |log2| && log2[i].bundle == k && log2[i].peer == node;
      assert (log1 + log2)[|log1| + i] == log2[i];
    }
  }

  /** The attempt was for one of the keys, to an active peer that bundle was
      eligible for at the start. */
  ghost predicate Justified(r: R.Router, now: DtnTime.Time, keys: seq<Store.Key>, active: seq<R.PeerInfo>, a: R.Attempt) {
    a.bundle in keys && EligiblePeer(r, now, a.bundle, active, a.peer)
  }

  lemma JustifiedEarlier(r: R.Router, s: R.Router, now: DtnTime.Time, keys: seq<Store.Key>, active: seq<R.PeerInfo>, a: R.Attempt)
    requires |keys| > 0 && R.Grows(r, s) && R.StoreKept(r, s) && Justified(s, now, keys[1..], active, a)
    ensures Justified(r, now, keys, active, a)
  {
    var q :| 0 <= q < |active| && active[q].nodeId == a.peer && Eligible(s, now, a.bundle, active[q]);
    EligibleEarlier(r, s, now, a.bundle, active[q]);
  }

  /** One step of the walk over the stored bundles, for the inductive proofs. */
  lemma DispatchEachStep(r: R.Router, now: DtnTime.Time, senders: seq<R.Sender>,
                         keys: seq<Store.Key>, active: seq<R.PeerInfo>)
    requires R.LocalNode(r.localNodeId) && |keys| > 0
    requires forall i :: 0 <= i < |keys| ==> keys[i] in r.store.bundles
    ensures var r1 := DispatchOne(r, now, senders, keys[0], active).0;
            (forall i :: 0 <= i < |keys| - 1 ==> keys[1..][i] in r1.store.bundles) &&
            DispatchEach(r, now, senders, keys, active).0 == DispatchEach(r1, now, senders, keys[1..], active).0 &&
            DispatchEach(r, now, senders, keys, active).1 ==
              DispatchOne(r, now, senders, keys[0], active).1 + DispatchEach(r1, now, senders, keys[1..], active).1
  {
  }

  /** Dispatching keeps the router valid and the store's keys and primary
      blocks. */
  lemma {:induction false} DispatchEachKeepsStore(r: R.Router, now: DtnTime.Time, senders: seq<R.Sender>,
                                                  keys: seq<Store.Key>, active: seq<R.PeerInfo>)
    requires R.Valid(r) && forall i :: 0 <= i < |keys| ==> keys[i] in r.store.bundles
    ensures R.Valid(DispatchEach(r, now, senders, keys, active).0)
    ensures R.StoreKept(r, DispatchEach(r, now, senders, keys, active).0)
    decreases |keys|
  {
    if |keys| > 0 {
      var r1 := DispatchOne(r, now, senders, keys[0], active).0;
      DispatchEachStep(r, now, senders, keys, active);
      DispatchOneKeepsStore(r, now, senders, keys[0], active);
      DispatchEachKeepsStore(r1, now, senders, keys[1..], active);
      R.StoreKeptTransitive(r, r1, DispatchEach(r1, now, senders, keys[1..], active).0);
    }
  }

  /** Dispatching grows the router, counts every attempt once, and leaves
      the descriptors of bundles it does not visit alone. */
  lemma {:induction false} DispatchEachGrows(r: R.Router, now: DtnTime.Time, senders: seq<R.Sender>,
                                             keys: seq<Store.Key>, active: seq<R.PeerInfo>)
    requires R.Valid(r) && forall i :: 0 <= i < |keys| ==> keys[i] in r.store.bundles
    ensures R.Grows(r, DispatchEach(r, now, senders, keys, active).0)
    ensures DispatchEach(r, now, senders, keys, active).0.sentBundles + DispatchEach(r, now, senders, keys, active).0.failedBundles ==
              r.sentBundles + r.failedBundles + |DispatchEach(r, now, senders, keys, active).1|
    ensures forall j :: j in r.descriptors && j !in keys ==>
              DispatchEach(r, now, senders, keys, active).0.descriptors[j] == r.descriptors[j]
    decreases |keys|
  {
    if |keys| > 0 {
      var r1 := DispatchOne(r, now, senders, keys[0], active).0;
      DispatchEachStep(r, now, senders, keys, active);
      DispatchOneGrows(r, now, senders, keys[0], active);
      DispatchOneKeepsStore(r, now, senders, keys[0], active);
      DispatchEachGrows(r1, now, senders, keys[1..], active);
      R.GrowsTransitive(r, r1, DispatchEach(r1, now, senders, keys[1..], active).0);
      forall j | j in r.descriptors && j !in keys
        ensures DispatchEach(r, now, senders, keys, active).0.descriptors[j] == r.descriptors[j]
      {
        assert j != keys[0] && j !in keys[1..];
      }
    }
  }

  /** The step of `DispatchEachAttempts`: attempts for the first bundle
      are justified directly, later ones through the router after it. */
  lemma AttemptsStep(r: R.Router, r1: R.Router, now: DtnTime.Time, keys: seq<Store.Key>, active: seq<R.PeerInfo>,
                     log1: seq<R.Attempt>, log2: seq<R.Attempt>)
    requires |keys| > 0 && R.Grows(r, r1) && R.StoreKept(r, r1)
    requires forall i :: 0 <= i < |log1| ==> log1[i].bundle == keys[0] && EligiblePeer(r, now, keys[0], active, log1[i].peer)
    requires forall i :: 0 <= i < |log2| ==> Justified(r1, now, keys[1..], active, log2[i])
    ensures forall i :: 0 <= i < |log1 + log2| ==> Justified(r, now, keys, active, (log1 + log2)[i])
  {
    var log := log1 + log2;
    forall i | 0 <= i < |log| ensures Justified(r, now, keys, active, log[i]) {
      if i < |log1| {
        assert log[i] == log1[i];
      } else {
        assert log[i] == log2[i - |log1|];
        JustifiedEarlier(r, r1, now, keys, active, log[i]);
      }
    }
  }

  /** Every attempt of a dispatch is justified by the router at its start. */
  lemma {:induction false} DispatchEachAttempts(r: R.Router, now: DtnTime.Time, senders: seq<R.Sender>,
                                                keys: seq<Store.Key>, active: seq<R.PeerInfo>)
    requires R.Valid(r) && forall i :: 0 <= i < |keys| ==> keys[i] in r.store.bundles
    ensures forall i :: 0 <= i < |DispatchEach(r, now, senders, keys, active).1| ==>
              Justified(r, now, keys, active, DispatchEach(r, now, senders, keys, active).1[i])
    decreases |keys|
  {
    if |keys| > 0 {
      var r1 := DispatchOne(r, now, senders, keys[0], active).0;
      DispatchEachStep(r, now, senders, keys, active);
      DispatchOneAttempts(r, now, senders, keys[0], active);
      DispatchOneGrows(r, now, senders, keys[0], active);
      DispatchOneKeepsStore(r, now, senders, keys[0], active);
      DispatchEachAttempts(r1, now, senders, keys[1..], active);
      AttemptsStep(r, r1, now, keys, active, DispatchOne(r, now, senders, keys[0], active).1,
                   DispatchEach(r1, now, senders, keys[1..], active).1);
    }
  }

  /** The step of `DispatchEachRecords`: successes of the first bundle
      stay recorded while later bundles are dispatched. */
  lemma RecordsStep(r: R.Router, r1: R.Router, s: R.Router, k: Store.Key, log1: seq<R.Attempt>, log2: seq<R.Attempt>)
    requires R.Grows(r, r1) && R.Grows(r1, s)
    requires forall i :: 0 <= i < |log1| ==> log1[i].bundle == k
    requires k in r.descriptors ==> forall i :: 0 <= i < |log1| && log1[i].ok ==> R.SentTo(r1.descriptors[k], log1[i].peer)
    requires forall i :: 0 <= i < |log2| && log2[i].ok && log2[i].bundle in r1.descriptors ==>
               R.SentTo(s.descriptors[log2[i].bundle], log2[i].peer)
    ensures forall i :: 0 <= i < |log1 + log2| && (log1 + log2)[i].ok && (log1 + log2)[i].bundle in r.descriptors ==>
              R.SentTo(s.descriptors[(log1 + log2)[i].bundle], (log1 + log2)[i].peer)
  {
    var log := log1 + log2;
    forall i | 0 <= i < |log| && log[i].ok && log[i].bundle in r.descriptors
      ensures R.SentTo(s.descriptors[log[i].bundle], log[i].peer)
    {
      if i < |log1| {
        assert log[i] == log1[i];
        assert R.Extends(r1.descriptors[k], s.descriptors[k]);
      } else {
        assert log[i] == log2[i - |log1|];
      }
    }
  }

  /** After a dispatch, every successful send of a bundle with a descriptor
      is recorded in it. */
  lemma {:induction false} DispatchEachRecords(r: R.Router, now: DtnTime.Time, senders: seq<R.Sender>,
                                               keys: seq<Store.Key>, active: seq<R.PeerInfo>)
    requires R.Valid(r) && forall i :: 0 <= i < |keys| ==> keys[i] in r.store.bundles
    ensures DispatchEach(r, now, senders, keys, active).0.descriptors.Keys == r.descriptors.Keys
    ensures forall i :: 0 <= i < |DispatchEach(r, now, senders, keys, active).1| &&
                        DispatchEach(r, now, senders, keys, active).1[i].ok &&
                        DispatchEach(r, now, senders, keys, active).1[i].bundle in r.descriptors ==>
              R.SentTo(DispatchEach(r, now, senders, keys, active).0.descriptors[DispatchEach(r, now, senders, keys, active).1[i].bundle],
                       DispatchEach(r, now, senders, keys, active).1[i].peer)
    decreases |keys|
  {
    if |keys| > 0 {
      var r1 := DispatchOne(r, now, senders, keys[0], active).0;
      DispatchEachStep(r, now, senders, keys, active);
      var log1 := DispatchOne(r, now, senders, keys[0], active).1;
      DispatchOneAttempts(r, now, senders, keys[0], active);
      DispatchOneGrows(r, now, senders, keys[0], active);
      DispatchOneKeepsStore(r, now, senders, keys[0], active);
      DispatchEachRecords(r1, now, senders, keys[1..], active);
      DispatchEachGrows(r1, now, senders, keys[1..], active);
      if keys[0] in r.descriptors {
        DispatchOneRecords(r, now, senders, keys[0], active);
      }
      RecordsStep(r, r1, DispatchEach(r1, now, senders, keys[1..], active).0, keys[0],
                  log1, DispatchEach(r1, now, senders, keys[1..], active).1);
    }
  }

  /** The step of `DispatchEachComplete`: pairs of the first bundle are in
      its own log, pairs of later bundles stay eligible after it. */
  lemma CompleteStep(r: R.Router, r1: R.Router, now: DtnTime.Time, keys: seq<Store.Key>, active: seq<R.PeerInfo>,
                     log1: seq<R.Attempt>, log2: seq<R.Attempt>)
    requires R.Valid(r) && |keys| > 0 && R.Grows(r, r1) && R.StoreKept(r, r1)
    requires forall i, j :: 0 <= i < j < |keys| ==> keys[i] != keys[j]
    requires forall j :: j in r.descriptors && j != keys[0] ==> r1.descriptors[j] == r.descriptors[j]
    requires forall i :: 0 <= i < |log1| ==> log1[i].bundle == keys[0]
    requires forall q :: 0 <= q < |active| && Eligible(r, now, keys[0], active[q]) ==> Attempted(log1, active[q].nodeId)
    requires forall j, q :: 0 <= j < |keys[1..]| && 0 <= q < |active| && Eligible(r1, now, keys[1..][j], active[q]) ==>
               AttemptedPair(log2, keys[1..][j], active[q].nodeId)
    ensures forall j, q :: 0 <= j < |keys| && 0 <= q < |active| && Eligible(r, now, keys[j], active[q]) ==>
              AttemptedPair(log1 + log2, keys[j], active[q].nodeId)
  {
    forall j, q | 0 <= j < |keys| && 0 <= q < |active| && Eligible(r, now, keys[j], active[q])
      ensures AttemptedPair(log1 + log2, keys[j], active[q].nodeId)
    {
      if j == 0 {
        var i :| 0 <= i < |log1| && log1[i].peer == active[q].nodeId;
        assert AttemptedPair(log1, keys[0], active[q].nodeId);
      } else {
        EligibleLater(r, r1, now, keys[j], active[q]);
        assert keys[1..][j - 1] == keys[j];
        assert AttemptedPair(log2, keys[j], active[q].nodeId);
      }
      AttemptedPairAppend(log1, log2, keys[j], active[q].nodeId);
    }
  }

  /** With distinct keys and peers, every bundle and active peer eligible at
      the start of a dispatch is tried. */
  lemma {:induction false} DispatchEachComplete(r: R.Router, now: DtnTime.Time, senders: seq<R.Sender>,
                                                keys: seq<Store.Key>, active: seq<R.PeerInfo>)
    requires R.Valid(r) && forall i :: 0 <= i < |keys| ==> keys[i] in r.store.bundles
    requires forall i, j :: 0 <= i < j < |keys| ==> keys[i] != keys[j]
    requires R.DistinctPeers(active)
    ensures forall j, q :: 0 <= j < |keys| && 0 <= q < |active| && Eligible(r, now, keys[j], active[q]) ==>
              AttemptedPair(DispatchEach(r, now, senders, keys, active).1, keys[j], active[q].nodeId)
    decreases |keys|
  {
    if |keys| > 0 {
      var tail := keys[1..];
      var r1 := DispatchOne(r, now, senders, keys[0], active).0;
      DispatchEachStep(r, now, senders, keys, active);
      DispatchOneAttempts(r, now, senders, keys[0], active);
      DispatchOneComplete(r, now, senders, keys[0], active);
      DispatchOneGrows(r, now, senders, keys[0], active);
      DispatchOneKeepsStore(r, now, senders, keys[0], active);
      forall i, j | 0 <= i < j < |tail| ensures tail[i] != tail[j] {
        assert tail[i] == keys[i + 1] && tail[j] == keys[j + 1];
      }
      DispatchEachComplete(r1, now, senders, tail, active);
      CompleteStep(r, r1, now, keys, active, DispatchOne(r, now, senders, keys[0], active).1,
                   DispatchEach(r1, now, senders, tail, active).1);
    }
  }

  // Dispatch as the router runs it

  /** Every stored bundle has a descriptor: new bundles get one as they are
      stored, and dispatch keeps them. */
  ghost predicate Tracked(r: R.Router) {
    forall k :: k in r.store.bundles ==> k in r.descriptors
  }

  lemma NotifyNewBundleTracked(r: R.Router, b: Option<B.Bundle>, source: R.NodeId)
    requires Tracked(r)
    ensures Tracked(NotifyNewBundle(r, b, source))
  {
    if Store.Push(r.store, b).1 {
      R.DescKeyOfBundle(b.value);
    }
  }

  /** A send the dispatcher may make: the bundle is stored, its descriptor
      has not expired, and the receiver is an active peer that is not the
      local node, for a bundle not addressed to the local node and not yet
      sent to that peer. */
  ghost predicate Allowed(r: R.Router, now: DtnTime.Time, a: R.Attempt) {
    a.bundle in r.store.bundles &&
    exists u :: u in r.peers && r.peers[u].nodeId == a.peer && R.IsActive(r.peers[u], now) &&
                Eligible(r, now, a.bundle, r.peers[u])
  }

  /** A justified attempt to one of the active peers is an allowed send. */
  lemma AllowedFromJustified(r: R.Router, now: DtnTime.Time, order: seq<Store.Key>, peerOrder: seq<string>, a: R.Attempt)
    requires R.Valid(r) && R.EnumeratesPeers(peerOrder, r.peers)
    requires forall i :: 0 <= i < |order| ==> order[i] in r.store.bundles
    requires Justified(r, now, order, R.ActivePeers(r.peers, peerOrder, now), a)
    ensures Allowed(r, now, a) && !Endpoint.Equal(a.peer, r.localNodeId)
  {
    var active := R.ActivePeers(r.peers, peerOrder, now);
    var q :| 0 <= q < |active| && active[q].nodeId == a.peer && Eligible(r, now, a.bundle, active[q]);
    var u := R.ActivePeerKey(r.peers, peerOrder, now, q);
    R.OfferableNotLocal(r, r.store.bundles[a.bundle].primary, active[q]);
  }

  /** Every send a dispatch makes is allowed by the router it starts from,
      so none goes to the local node. */
  lemma DispatchSafe(r: R.Router, now: DtnTime.Time, senders: seq<R.Sender>, order: seq<Store.Key>, peerOrder: seq<string>)
    requires R.Valid(r) && Store.Enumerates(order, r.store.bundles) && R.EnumeratesPeers(peerOrder, r.peers)
    ensures forall i :: 0 <= i < |DispatchBundles(r, now, senders, order, peerOrder).1| ==>
              Allowed(r, now, DispatchBundles(r, now, senders, order, peerOrder).1[i]) &&
              !Endpoint.Equal(DispatchBundles(r, now, senders, order, peerOrder).1[i].peer, r.localNodeId)
  {
    var active := R.ActivePeers(r.peers, peerOrder, now);
    var log := DispatchBundles(r, now, senders, order, peerOrder).1;
    DispatchEachAttempts(r, now, senders, order, active);
    assert log == DispatchEach(r, now, senders, order, active).1;
    forall i | 0 <= i < |log| ensures Allowed(r, now, log[i]) && !Endpoint.Equal(log[i].peer, r.localNodeId) {
      AllowedFromJustified(r, now, order, peerOrder, log[i]);
    }
  }

  /** A log that holds every eligible pair of order's keys and the active
      peers holds every eligible pair of a stored bundle and an active peer. */
  lemma CompleteForPeer(r: R.Router, now: DtnTime.Time, order: seq<Store.Key>, peerOrder: seq<string>,
                        log: seq<R.Attempt>, k: Store.Key, u: string)
    requires Store.Enumerates(order, r.store.bundles) && R.EnumeratesPeers(peerOrder, r.peers)
    requires forall j, q :: 0 <= j < |order| && 0 <= q < |R.ActivePeers(r.peers, peerOrder, now)| &&
                            Eligible(r, now, order[j], R.ActivePeers(r.peers, peerOrder, now)[q]) ==>
               AttemptedPair(log, order[j], R.ActivePeers(r.peers, peerOrder, now)[q].nodeId)
    requires k in r.store.bundles && u in r.peers && R.IsActive(r.peers[u], now) && Eligible(r, now, k, r.peers[u])
    ensures AttemptedPair(log, k, r.peers[u].nodeId)
  {
    var active := R.ActivePeers(r.peers, peerOrder, now);
    var j :| 0 <= j < |order| && order[j] == k;
    var v :| 0 <= v < |peerOrder| && peerOrder[v] == u;
    var q :| 0 <= q < |active| && active[q] == r.peers[peerOrder[v]];
  }

  /** Every stored bundle and active peer the checks let through is tried. */
  lemma DispatchComplete(r: R.Router, now: DtnTime.Time, senders: seq<R.Sender>, order: seq<Store.Key>, peerOrder: seq<string>)
    requires R.Valid(r) && Store.Enumerates(order, r.store.bundles) && R.EnumeratesPeers(peerOrder, r.peers)
    ensures forall k, u :: k in r.store.bundles && u in r.peers && R.IsActive(r.peers[u], now) &&
                           Eligible(r, now, k, r.peers[u]) ==>
              AttemptedPair(DispatchBundles(r, now, senders, order, peerOrder).1, k, r.peers[u].nodeId)
  {
    var active := R.ActivePeers(r.peers, peerOrder, now);
    var log := DispatchBundles(r, now, senders, order, peerOrder).1;
    R.ActivePeersDistinct(r.peers, peerOrder, now);
    DispatchEachComplete(r, now, senders, order, active);
    assert log == DispatchEach(r, now, senders, order, active).1;
    forall k, u | k in r.store.bundles && u in r.peers && R.IsActive(r.peers[u], now) && Eligible(r, now, k, r.peers[u])
      ensures AttemptedPair(log, k, r.peers[u].nodeId)
    {
      CompleteForPeer(r, now, order, peerOrder, log, k, u);
    }
  }

  /** Every send of `log` that succeeded is recorded in `r`'s descriptor
      for the bundle. */
  ghost predicate Recorded(r: R.Router, log: seq<R.Attempt>) {
    forall i :: 0 <= i < |log| && log[i].ok ==>
      log[i].bundle in r.descriptors && R.SentTo(r.descriptors[log[i].bundle], log[i].peer)
  }

  /** After a dispatch from a tracked router, every peer a send succeeded to
      is recorded for the bundle. */
  lemma DispatchRecords(r: R.Router, now: DtnTime.Time, senders: seq<R.Sender>, order: seq<Store.Key>, peerOrder: seq<string>)
    requires R.Valid(r) && Tracked(r)
    requires Store.Enumerates(order, r.store.bundles) && R.EnumeratesPeers(peerOrder, r.peers)
    ensures R.Valid(DispatchBundles(r, now, senders, order, peerOrder).0)
    ensures Tracked(DispatchBundles(r, now, senders, order, peerOrder).0)
    ensures Recorded(DispatchBundles(r, now, senders, order, peerOrder).0, DispatchBundles(r, now, senders, order, peerOrder).1)
  {
    var active := R.ActivePeers(r.peers, peerOrder, now);
    var log := DispatchBundles(r, now, senders, order, peerOrder).1;
    DispatchEachKeepsStore(r, now, senders, order, active);
    DispatchEachRecords(r, now, senders, order, active);
    DispatchEachAttempts(r, now, senders, order, active);
    forall i | 0 <= i < |log| && log[i].ok ensures log[i].bundle in r.descriptors {
      assert Justified(r, now, order, active, log[i]);
    }
  }

  /** An allowed send does not go to a node the bundle was already sent to. */
  lemma NotResent(s: R.Router, now: DtnTime.Time, node: R.NodeId, a: R.Attempt)
    requires R.Valid(s) && Allowed(s, now, a) && a.bundle in s.descriptors && R.SentTo(s.descriptors[a.bundle], node)
    ensures !Endpoint.Equal(a.peer, node)
  {
    var u :| u in s.peers && s.peers[u].nodeId == a.peer && R.IsActive(s.peers[u], now) && Eligible(s, now, a.bundle, s.peers[u]);
    StoredAt(s, a.bundle);
    assert !R.SentTo(s.descriptors[a.bundle], s.peers[u].nodeId);
  }

  /** No send of `later` goes to a node a send of `earlier` succeeded to
      with the same bundle. */
  predicate NoResend(earlier: seq<R.Attempt>, later: seq<R.Attempt>) {
    forall i, j :: 0 <= i < |earlier| && 0 <= j < |later| && earlier[i].ok && later[j].bundle == earlier[i].bundle ==>
      !Endpoint.Equal(later[j].peer, earlier[i].peer)
  }

  /** A dispatch from a router that records the successful sends of `log`
      repeats none of them. */
  lemma DispatchSkipsRecorded(s: R.Router, now: DtnTime.Time, senders: seq<R.Sender>, order: seq<Store.Key>,
                              peerOrder: seq<string>, log: seq<R.Attempt>)
    requires R.Valid(s) && Store.Enumerates(order, s.store.bundles) && R.EnumeratesPeers(peerOrder, s.peers)
    requires Recorded(s, log)
    ensures NoResend(log, DispatchBundles(s, now, senders, order, peerOrder).1)
  {
    DispatchSafe(s, now, senders, order, peerOrder);
    var log2 := DispatchBundles(s, now, senders, order, peerOrder).1;
    forall i, j | 0 <= i < |log| && 0 <= j < |log2| && log[i].ok && log2[j].bundle == log[i].bundle
      ensures !Endpoint.Equal(log2[j].peer, log[i].peer)
    {
      NotResent(s, now, log[i].peer, log2[j]);
    }
  }

  /** The router a dispatch leaves, with its peers replaced, is valid and
      records the dispatch's successful sends. */
  lemma RecordedAfterDispatch(r: R.Router, now: DtnTime.Time, senders: seq<R.Sender>, order: seq<Store.Key>,
                              peerOrder: seq<string>, peers2: map<string, R.PeerInfo>)
    requires R.Valid(r) && Tracked(r)
    requires Store.Enumerates(order, r.store.bundles) && R.EnumeratesPeers(peerOrder, r.peers)
    requires forall u :: u in peers2 ==> peers2[u].nodeId.uri == u
    ensures var s := DispatchBundles(r, now, senders, order, peerOrder).0.(peers := peers2);
            R.Valid(s) && Store.Enumerates(order, s.store.bundles) &&
            Recorded(s, DispatchBundles(r, now, senders, order, peerOrder).1)
  {
    DispatchRecords(r, now, senders, order, peerOrder);
    RecordedWithPeers(DispatchBundles(r, now, senders, order, peerOrder).0, DispatchBundles(r, now, senders, order, peerOrder).1, peers2);
  }

  /** Replacing the peers keeps a router valid and its records. */
  lemma RecordedWithPeers(r: R.Router, log: seq<R.Attempt>, peers2: map<string, R.PeerInfo>)
    requires R.Valid(r) && Recorded(r, log)
    requires forall u :: u in peers2 ==> peers2[u].nodeId.uri == u
    ensures R.Valid(r.(peers := peers2)) && Recorded(r.(peers := peers2), log)
  {
  }

  /** Dispatching again, even after peers came and went, never repeats a
      send that succeeded: the bundle is not sent to that node a second
      time. */
  lemma NeverTwice(r: R.Router, now: DtnTime.Time, senders: seq<R.Sender>, order: seq<Store.Key>, peerOrder: seq<string>,
                   peers2: map<string, R.PeerInfo>, now2: DtnTime.Time, senders2: seq<R.Sender>, peerOrder2: seq<string>)
    requires R.Valid(r) && Tracked(r)
    requires Store.Enumerates(order, r.store.bundles) && R.EnumeratesPeers(peerOrder, r.peers)
    requires forall u :: u in peers2 ==> peers2[u].nodeId.uri == u
    requires R.EnumeratesPeers(peerOrder2, peers2)
    ensures var s := DispatchBundles(r, now, senders, order, peerOrder).0.(peers := peers2);
            Store.Enumerates(order, s.store.bundles) &&
            NoResend(DispatchBundles(r, now, senders, order, peerOrder).1, DispatchBundles(s, now2, senders2, order, peerOrder2).1)
  {
    var (r1, log1) := DispatchBundles(r, now, senders, order, peerOrder);
    RecordedAfterDispatch(r, now, senders, order, peerOrder, peers2);
    DispatchSkipsRecorded(r1.(peers := peers2), now2, senders2, order, peerOrder2, log1);
  }

  /** Nothing is sent when no peer is active or nothing is stored, and the
      router does not change. */
  lemma NothingToSend(r: R.Router, now: DtnTime.Time, senders: seq<R.Sender>, order: seq<Store.Key>, peerOrder: seq<string>)
    requires R.LocalNode(r.localNodeId) && Store.Enumerates(order, r.store.bundles) && R.EnumeratesPeers(peerOrder, r.peers)
    requires |r.store.bundles| == 0 || forall u :: u in r.peers ==> !R.IsActive(r.peers[u], now)
    ensures DispatchBundles(r, now, senders, order, peerOrder) == (r, [])
  {
    if |r.store.bundles| == 0 {
      Store.EnumerationSize(order, r.store.bundles);
    } else {
      R.ActivePeersNone(r.peers, peerOrder, now);
      NoPeersNoSends(r, now, senders, order);
    }
  }

  lemma {:induction false} NoPeersNoSends(r: R.Router, now: DtnTime.Time, senders: seq<R.Sender>, keys: seq<Store.Key>)
    requires R.LocalNode(r.localNodeId) && forall i :: 0 <= i < |keys| ==> keys[i] in r.store.bundles
    ensures DispatchEach(r, now, senders, keys, []) == (r, [])
    decreases |keys|
  {
    if |keys| > 0 {
      var b := r.store.bundles[keys[0]];
      assert Offer(r, senders, b, []) == (r, []);
      assert DispatchOne(r, now, senders, keys[0], []) == (r, []);
      NoPeersNoSends(r, now, senders, keys[1..]);
      assert DispatchEach(r, now, senders, keys, []).1 == [] + DispatchEach(r, now, senders, keys[1..], []).1;
    }
  }

  /** A peer that appears active is offered every stored bundle it is
      eligible for. */
  lemma NewPeerOffered(r: R.Router, peer: R.PeerInfo, now: DtnTime.Time, senders: seq<R.Sender>,
                       order: seq<Store.Key>, peerOrder: seq<string>, k: Store.Key)
    requires R.Valid(r) && Store.Enumerates(order, r.store.bundles)
    requires R.EnumeratesPeers(peerOrder, r.peers[peer.nodeId.uri := peer])
    requires R.IsActive(peer, now) && Eligible(r, now, k, peer)
    ensures AttemptedPair(NotifyPeerAppeared(r, peer, now, senders, order, peerOrder).1, k, peer.nodeId)
  {
    var r1 := r.(peers := r.peers[peer.nodeId.uri := peer]);
    var u := peer.nodeId.uri;
    PeerNotificationsKeepValid(r, peer, peer.nodeId);
    assert u in r1.peers && r1.peers[u] == peer;
    assert Eligible(r1, now, k, r1.peers[u]);
    DispatchComplete(r1, now, senders, order, peerOrder);
    assert NotifyPeerAppeared(r, peer, now, senders, order, peerOrder).1 == DispatchBundles(r1, now, senders, order, peerOrder).1;
  }
}

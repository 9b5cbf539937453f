/** Binary spray-and-wait routing: a bundle starts with a budget of copies;
    while it holds more than one it is handed to any peer that has not had it,
    keeping half of what remains, and with one copy left it waits for its
    destination. A failed send still costs a copy, as the code has it. */

module Spray {
  import opened Wrappers
  import Endpoint
  import DtnTime
  import B = Bundle
  import Store = BundleStore
  import R = Routing
  import Epidemic

  /** The `MaxCopies` attribute's default. */
  const DEFAULT_MAX_COPIES: nat := 6

  /** Copy counts are `uint32_t`. */
  const UINT32_LIMIT: nat := 0x1_0000_0000

  /** The state of a `SprayAndWaitRouting`: the routing base, the copy count
      of each bundle (keyed like the descriptors), and the budget a bundle
      created here starts with. */
  datatype SprayRouter = SprayRouter(base: R.Router, copies: map<R.Key, nat>, maxCopies: nat)

  /** The budget is a `uint32_t` of at least one (the attribute's checker),
      and every recorded count lies between one and the budget. */
  predicate CopiesValid(s: SprayRouter) {
    1 <= s.maxCopies < UINT32_LIMIT &&
    forall k :: k in s.copies ==> 1 <= s.copies[k] <= s.maxCopies
  }

  predicate Valid(s: SprayRouter) {
    R.Valid(s.base) && CopiesValid(s)
  }

  /** The constructor: no counts recorded yet. */
  function Create(base: R.Router, maxCopies: nat): (s: SprayRouter)
    requires 1 <= maxCopies < UINT32_LIMIT
    ensures CopiesValid(s) && s.base == base && s.maxCopies == maxCopies
    ensures forall k :: GetCopyCount(s, k) == 1
  {
    SprayRouter(base, map[], maxCopies)
  }

  // Copy counts

  /** `GetCopyCount`: a bundle without a recorded count holds one copy. */
  function GetCopyCount(s: SprayRouter, k: R.Key): (c: nat)
    ensures k !in s.copies ==> c == 1
    ensures CopiesValid(s) ==> 1 <= c <= s.maxCopies
  {
    if k in s.copies then s.copies[k] else 1
  }

  /** `SetCopyCount`: only the one count changes. */
  function SetCopyCount(s: SprayRouter, k: R.Key, count: nat): (r: SprayRouter)
    ensures r == s.(copies := r.copies)
    ensures GetCopyCount(r, k) == count
    ensures forall j :: j != k ==> GetCopyCount(r, j) == GetCopyCount(s, j)
    ensures CopiesValid(s) && 1 <= count <= s.maxCopies ==> CopiesValid(r)
  {
    s.(copies := s.copies[k := count])
  }

  /** `DecreaseCopyCount`: gives up one copy, never going below one, and
      returns the count now held. */
  function DecreaseCopyCount(s: SprayRouter, k: R.Key): (res: (SprayRouter, nat))
    ensures res.0 == s.(copies := res.0.copies)
    ensures res.1 >= 1
    ensures GetCopyCount(s, k) >= 1 ==> res.1 == GetCopyCount(res.0, k)
    ensures GetCopyCount(s, k) > 1 ==> res.1 + 1 == GetCopyCount(s, k)
    ensures GetCopyCount(s, k) <= 1 ==> res.0 == s
    ensures forall j :: j != k ==> GetCopyCount(res.0, j) == GetCopyCount(s, j)
    ensures CopiesValid(s) ==> CopiesValid(res.0)
  {
    if k in s.copies && s.copies[k] > 1 then
      (s.(copies := s.copies[k := s.copies[k] - 1]), s.copies[k] - 1)
    else (s, 1)
  }

  /** The copies handed to the peer out of `newCount`: the smaller half. */
  function PeerShare(newCount: nat): nat {
    newCount / 2
  }

  /** Splitting the copies loses none, and the local half is the larger by
      at most one. */
  lemma ShareSplit(newCount: nat)
    ensures PeerShare(newCount) + (newCount - PeerShare(newCount)) == newCount
    ensures PeerShare(newCount) <= newCount - PeerShare(newCount) <= PeerShare(newCount) + 1
    ensures newCount >= 1 ==> newCount - PeerShare(newCount) >= 1
  {
  }

  // Notifications

  /** The budget a newly stored bundle starts with: all copies when this
      node created it, half of them (but at least one) when it came from
      elsewhere. */
  function InitialCopies(s: SprayRouter, b: B.Bundle): (c: nat)
    ensures CopiesValid(s) ==> 1 <= c <= s.maxCopies
    ensures CopiesValid(s) && !Endpoint.Equal(b.primary.source, s.base.localNodeId) ==> c * 2 <= s.maxCopies || c == 1
    ensures Endpoint.Equal(b.primary.source, s.base.localNodeId) ==> c == s.maxCopies
  {
    if Endpoint.Equal(b.primary.source, s.base.localNodeId) then s.maxCopies
    else if s.maxCopies / 2 >= 1 then s.maxCopies / 2 else 1
  }

  /** `NotifyNewBundle`: store and describe the bundle as the epidemic router
      does, then give it its initial budget. */
  function NotifyNewBundle(s: SprayRouter, b: Option<B.Bundle>, source: R.NodeId): (res: SprayRouter)
    ensures !Store.Push(s.base.store, b).1 ==> res == s
    ensures Store.Push(s.base.store, b).1 ==>
              res.base == Epidemic.NotifyNewBundle(s.base, b, source) && res.maxCopies == s.maxCopies &&
              GetCopyCount(res, R.DescKey(b.value.primary)) == InitialCopies(s, b.value) &&
              forall j :: j != R.DescKey(b.value.primary) ==> GetCopyCount(res, j) == GetCopyCount(s, j)
  {
    if !Store.Push(s.base.store, b).1 then s
    else
      var base := Epidemic.NotifyNewBundle(s.base, b, source);
      SetCopyCount(s.(base := base), R.DescKey(b.value.primary), InitialCopies(s, b.value))
  }

  lemma NotifyNewBundleKeepsValid(s: SprayRouter, b: Option<B.Bundle>, source: R.NodeId)
    requires Valid(s)
    ensures Valid(NotifyNewBundle(s, b, source))
  {
    if Store.Push(s.base.store, b).1 {
      Epidemic.NotifyNewBundleKeepsValid(s.base, b, source);
      var s1 := s.(base := Epidemic.NotifyNewBundle(s.base, b, source));
      assert CopiesValid(s1);
    }
  }

  /** `NotifyPeerDisappeared`: forget the peer; counts are kept. */
  function NotifyPeerDisappeared(s: SprayRouter, peer: R.NodeId): (res: SprayRouter)
    ensures res.copies == s.copies && res.maxCopies == s.maxCopies
    ensures forall u :: u in res.base.peers <==> u in s.base.peers && u != peer.uri
  {
    s.(base := Epidemic.NotifyPeerDisappeared(s.base, peer))
  }

  lemma NotifyPeerDisappearedKeepsValid(s: SprayRouter, peer: R.NodeId)
    requires Valid(s)
    ensures Valid(NotifyPeerDisappeared(s, peer))
  {
    Epidemic.PeerNotificationsKeepValid(s.base, R.PeerInfo(peer, 0, 0, false, "", ""), peer);
  }

  // One send

  /** The number of sends in `log` that succeeded. */
  function Successes(log: seq<R.Attempt>): nat {
    if |log| == 0 then 0 else (if log[0].ok then 1 else 0) + Successes(log[1..])
  }

  /** The copy bookkeeping of one spray send with the failure branch as its
      comment intends: give up a copy and split what is left; on success keep
      the larger half, on failure put the count back as it was. The second
      component is the peer's share, which is only logged. */
  function SprayCount(s: SprayRouter, k: R.Key, ok: bool): (res: (SprayRouter, nat))
    ensures res.0 == s.(copies := res.0.copies)
    ensures forall j :: j != k ==> GetCopyCount(res.0, j) == GetCopyCount(s, j)
    ensures !ok ==> GetCopyCount(res.0, k) == GetCopyCount(s, k)
    ensures ok && GetCopyCount(s, k) > 1 ==>
              GetCopyCount(res.0, k) + res.1 + 1 == GetCopyCount(s, k) &&
              res.1 <= GetCopyCount(res.0, k) <= res.1 + 1
    ensures GetCopyCount(s, k) >= 1 ==> GetCopyCount(res.0, k) >= 1
    ensures CopiesValid(s) ==> CopiesValid(res.0)
  {
    var (s1, newCount) := DecreaseCopyCount(s, k);
    var peerCopies := PeerShare(newCount);
    var localCopies := newCount - peerCopies;
    ShareSplit(newCount);
    if ok then (SetCopyCount(s1, k, localCopies), peerCopies)
    else (SetCopyCount(s1, k, GetCopyCount(s, k)), peerCopies)
  }

  /** The same bookkeeping as written, which dispatch uses: the failure
      branch, commented as restoring the count, stores the count already
      decreased, so a failed send costs a copy (down to the last one). */
  function SprayCountAsWritten(s: SprayRouter, k: R.Key, ok: bool): (res: (SprayRouter, nat))
    ensures res.0 == s.(copies := res.0.copies)
    ensures forall j :: j != k ==> GetCopyCount(res.0, j) == GetCopyCount(s, j)
    ensures ok ==> res == SprayCount(s, k, ok)
    ensures !ok && GetCopyCount(s, k) >= 1 ==> GetCopyCount(res.0, k) == DecreaseCopyCount(s, k).1
    ensures !ok && GetCopyCount(s, k) > 1 ==> GetCopyCount(res.0, k) + 1 == GetCopyCount(s, k)
    ensures GetCopyCount(s, k) >= 1 ==> GetCopyCount(res.0, k) >= 1
    ensures CopiesValid(s) ==> CopiesValid(res.0)
  {
    var (s1, newCount) := DecreaseCopyCount(s, k);
    var peerCopies := PeerShare(newCount);
    var localCopies := newCount - peerCopies;
    if ok then (SetCopyCount(s1, k, localCopies), peerCopies)
    else (SetCopyCount(s1, k, newCount), peerCopies)
  }

  /** As written, a send that fails costs the bundle a copy although nothing
      was handed over; as intended, it costs nothing. */
  lemma FailedSprayLosesCopy(s: SprayRouter, k: R.Key)
    requires GetCopyCount(s, k) > 1
    ensures GetCopyCount(SprayCountAsWritten(s, k, false).0, k) + 1 == GetCopyCount(s, k)
    ensures GetCopyCount(SprayCount(s, k, false).0, k) == GetCopyCount(s, k)
  {
  }

  /** One spray send: the send itself and its copy bookkeeping. The source
      gives up the copy before sending; the two touch separate state, so the
      order does not matter. */
  function SprayStep(s: SprayRouter, senders: seq<R.Sender>, b: B.Bundle, p: R.PeerInfo)
    : (res: (SprayRouter, B.Bundle, bool, nat))
    requires R.LocalNode(s.base.localNodeId)
    ensures res.0.base.localNodeId == s.base.localNodeId && res.0.base.peers == s.base.peers &&
            res.0.base.store.bundles.Keys == s.base.store.bundles.Keys && res.1.primary == b.primary
    ensures res.0.copies == SprayCountAsWritten(s, R.DescKey(b.primary), res.2).0.copies && res.0.maxCopies == s.maxCopies
  {
    var (r2, b1, ok) := R.SendStored(s.base, senders, b, p);
    var (s2, peerCopies) := SprayCountAsWritten(s, R.DescKey(b.primary), ok);
    (s2.(base := r2), b1, ok, peerCopies)
  }

  /** The router side of a spray send is the send itself. */
  lemma SprayStepSends(s: SprayRouter, senders: seq<R.Sender>, b: B.Bundle, p: R.PeerInfo)
    requires R.LocalNode(s.base.localNodeId)
    ensures (SprayStep(s, senders, b, p).0.base, SprayStep(s, senders, b, p).1, SprayStep(s, senders, b, p).2) ==
              R.SendStored(s.base, senders, b, p)
  {
  }

  // The two phases

  /** One peer of the wait phase: the bundle goes to the peer
      only when the peer is its destination and the bundle has a descriptor
      that does not record the peer. No count changes. */
  function WaitPeer(s: SprayRouter, senders: seq<R.Sender>, b: B.Bundle, p: R.PeerInfo)
    : (res: (SprayRouter, B.Bundle, seq<R.Attempt>))
    requires R.LocalNode(s.base.localNodeId)
    ensures res.0.copies == s.copies && res.0.maxCopies == s.maxCopies && res.1.primary == b.primary
    ensures res.0.base.localNodeId == s.base.localNodeId && res.0.base.peers == s.base.peers &&
            res.0.base.store.bundles.Keys == s.base.store.bundles.Keys
    ensures forall i :: 0 <= i < |res.2| ==>
              res.2[i].bundle == R.DescKey(b.primary) && Endpoint.Equal(res.2[i].peer, b.primary.destination)
  {
    var d := R.DescKey(b.primary);
    if Endpoint.Equal(p.nodeId, b.primary.destination) && d in s.base.descriptors &&
       !R.SentTo(s.base.descriptors[d], p.nodeId)
    then
      var (r1, b1, ok) := R.SendStored(s.base, senders, b, p);
      (s.(base := r1), b1, [R.Attempt(d, p.nodeId, ok)])
    else (s, b, [])
  }

  /** The wait phase: every active peer in turn. */
  function WaitFor(s: SprayRouter, senders: seq<R.Sender>, b: B.Bundle, peers: seq<R.PeerInfo>)
    : (res: (SprayRouter, seq<R.Attempt>))
    requires R.LocalNode(s.base.localNodeId)
    ensures res.0.copies == s.copies && res.0.maxCopies == s.maxCopies
    ensures res.0.base.localNodeId == s.base.localNodeId && res.0.base.peers == s.base.peers &&
            res.0.base.store.bundles.Keys == s.base.store.bundles.Keys
    ensures forall i :: 0 <= i < |res.1| ==>
              res.1[i].bundle == R.DescKey(b.primary) && Endpoint.Equal(res.1[i].peer, b.primary.destination)
    decreases |peers|
  {
    if |peers| == 0 then (s, [])
    else
      var (s1, b1, log1) := WaitPeer(s, senders, b, peers[0]);
      var (s2, log2) := WaitFor(s1, senders, b1, peers[1..]);
      (s2, log1 + log2)
  }

  /** One peer of the spray phase: skipped when the epidemic
      checks fail, otherwise one spray send. The flag says the loop stops
      here: the send succeeded and left at most one copy. */
  function SprayPeer(s: SprayRouter, senders: seq<R.Sender>, b: B.Bundle, p: R.PeerInfo)
    : (res: (SprayRouter, B.Bundle, seq<R.Attempt>, bool))
    requires R.LocalNode(s.base.localNodeId)
    ensures res.0.maxCopies == s.maxCopies && res.1.primary == b.primary
    ensures res.0.base.localNodeId == s.base.localNodeId && res.0.base.peers == s.base.peers &&
            res.0.base.store.bundles.Keys == s.base.store.bundles.Keys
  {
    var d := R.DescKey(b.primary);
    if !R.Offerable(s.base, b.primary, p) then (s, b, [], false)
    else
      var (s1, b1, ok, _) := SprayStep(s, senders, b, p);
      (s1, b1, [R.Attempt(d, p.nodeId, ok)], ok && GetCopyCount(s1, d) <= 1)
  }

  /** The spray phase: every active peer in turn until the loop stops.
      Entered only while the bundle holds more than one copy; failed sends can
      wear the count down to one, and the loop then goes on offering the last
      copy. */
  function SprayTo(s: SprayRouter, senders: seq<R.Sender>, b: B.Bundle, peers: seq<R.PeerInfo>)
    : (res: (SprayRouter, seq<R.Attempt>))
    requires R.LocalNode(s.base.localNodeId)
    ensures res.0.maxCopies == s.maxCopies
    ensures res.0.base.localNodeId == s.base.localNodeId && res.0.base.peers == s.base.peers &&
            res.0.base.store.bundles.Keys == s.base.store.bundles.Keys
    decreases |peers|
  {
    if |peers| == 0 then (s, [])
    else
      var (s1, b1, log1, stop) := SprayPeer(s, senders, b, peers[0]);
      if stop then (s1, log1)
      else
        var (s2, log2) := SprayTo(s1, senders, b1, peers[1..]);
        (s2, log1 + log2)
  }

  lemma {:induction false} SuccessesAppend(log1: seq<R.Attempt>, log2: seq<R.Attempt>)
    ensures Successes(log1 + log2) == Successes(log1) + Successes(log2)
    decreases |log1|
  {
    if |log1| > 0 {
      assert (log1 + log2)[1..] == log1[1..] + log2;
      SuccessesAppend(log1[1..], log2);
    } else {
      assert log1 + log2 == log2;
    }
  }

  /** The successful sends a count of `c` still pays for: one per copy given
      up, except that a count worn down to one by failed sends still pays for
      one last success. */
  function Allowance(c: nat): nat {
    if c == 1 then 2 else c
  }

  /** One spray peer: a success costs at least one copy, a failure costs one
      unless only one is left, and a count is never driven below one. What is
      left, plus the successes, stays within the allowance. */
  lemma SprayPeerCopies(s: SprayRouter, senders: seq<R.Sender>, b: B.Bundle, p: R.PeerInfo)
    requires R.LocalNode(s.base.localNodeId)
    requires GetCopyCount(s, R.DescKey(b.primary)) >= 1
    ensures var (s1, _, log, stop) := SprayPeer(s, senders, b, p);
            (forall j :: j != R.DescKey(b.primary) ==> GetCopyCount(s1, j) == GetCopyCount(s, j)) &&
            1 <= GetCopyCount(s1, R.DescKey(b.primary)) &&
            Successes(log) + (if stop then GetCopyCount(s1, R.DescKey(b.primary))
                              else Allowance(GetCopyCount(s1, R.DescKey(b.primary))))
              <= Allowance(GetCopyCount(s, R.DescKey(b.primary))) &&
            (CopiesValid(s) ==> CopiesValid(s1))
  {
    if R.Offerable(s.base, b.primary, p) {
      var (s1, b1, ok, _) := SprayStep(s, senders, b, p);
      var a := R.Attempt(R.DescKey(b.primary), p.nodeId, ok);
      assert [a][1..] == [];
    }
  }

  /** Each successful spray send costs at least one copy: the successes and
      the copies left never exceed the copies held at the start (plus the last
      copy a count of one still offers), at least one copy is always kept, and
      no other bundle's count changes. */
  lemma {:induction false} SprayToCopies(s: SprayRouter, senders: seq<R.Sender>, b: B.Bundle, peers: seq<R.PeerInfo>)
    requires R.LocalNode(s.base.localNodeId)
    requires GetCopyCount(s, R.DescKey(b.primary)) >= 1
    ensures forall j :: j != R.DescKey(b.primary) ==> GetCopyCount(SprayTo(s, senders, b, peers).0, j) == GetCopyCount(s, j)
    ensures 1 <= GetCopyCount(SprayTo(s, senders, b, peers).0, R.DescKey(b.primary))
    ensures GetCopyCount(SprayTo(s, senders, b, peers).0, R.DescKey(b.primary)) + Successes(SprayTo(s, senders, b, peers).1)
              <= Allowance(GetCopyCount(s, R.DescKey(b.primary)))
    ensures GetCopyCount(s, R.DescKey(b.primary)) > 1 ==>
              GetCopyCount(SprayTo(s, senders, b, peers).0, R.DescKey(b.primary)) + Successes(SprayTo(s, senders, b, peers).1)
                <= GetCopyCount(s, R.DescKey(b.primary))
    ensures CopiesValid(s) ==> CopiesValid(SprayTo(s, senders, b, peers).0)
    decreases |peers|
  {
    if |peers| > 0 {
      var (s1, b1, log1, stop) := SprayPeer(s, senders, b, peers[0]);
      SprayPeerCopies(s, senders, b, peers[0]);
      if !stop {
        SprayToCopies(s1, senders, b1, peers[1..]);
        SuccessesAppend(log1, SprayTo(s1, senders, b1, peers[1..]).1);
      }
    }
  }

  // Dispatch

  /** One bundle of `DispatchBundles`: skipped when its descriptor has
      expired; otherwise waiting with one copy, spraying with more. */
  function DispatchOne(s: SprayRouter, now: DtnTime.Time, senders: seq<R.Sender>, k: Store.Key,
                       active: seq<R.PeerInfo>): (res: (SprayRouter, seq<R.Attempt>))
    requires R.LocalNode(s.base.localNodeId) && k in s.base.store.bundles
    ensures res.0.maxCopies == s.maxCopies
    ensures res.0.base.localNodeId == s.base.localNodeId && res.0.base.peers == s.base.peers &&
            res.0.base.store.bundles.Keys == s.base.store.bundles.Keys
  {
    var b := s.base.store.bundles[k];
    var d := R.DescKey(b.primary);
    if d in s.base.descriptors && R.DescriptorExpired(s.base.descriptors[d], now) then (s, [])
    else if GetCopyCount(s, d) <= 1 then WaitFor(s, senders, b, active)
    else SprayTo(s, senders, b, active)
  }

  /** The outer loop of `DispatchBundles`, over the store's keys in order. */
  function DispatchEach(s: SprayRouter, now: DtnTime.Time, senders: seq<R.Sender>, keys: seq<Store.Key>,
                        active: seq<R.PeerInfo>): (res: (SprayRouter, seq<R.Attempt>))
    requires R.LocalNode(s.base.localNodeId)
    requires forall i :: 0 <= i < |keys| ==> keys[i] in s.base.store.bundles
    ensures res.0.maxCopies == s.maxCopies
    ensures res.0.base.localNodeId == s.base.localNodeId && res.0.base.peers == s.base.peers &&
            res.0.base.store.bundles.Keys == s.base.store.bundles.Keys
    decreases |keys|
  {
    if |keys| == 0 then (s, [])
    else
      var (s1, log1) := DispatchOne(s, now, senders, keys[0], active);
      var (s2, log2) := DispatchEach(s1, now, senders, keys[1..], active);
      (s2, log1 + log2)
  }

  /** `DispatchBundles`: the active peers are collected once, then every
      stored bundle is dispatched to them. */
  function DispatchBundles(s: SprayRouter, now: DtnTime.Time, senders: seq<R.Sender>,
                           order: seq<Store.Key>, peerOrder: seq<string>): (res: (SprayRouter, seq<R.Attempt>))
    requires R.LocalNode(s.base.localNodeId)
    requires Store.Enumerates(order, s.base.store.bundles)
    requires R.EnumeratesPeers(peerOrder, s.base.peers)
    ensures res.0.maxCopies == s.maxCopies
    ensures res.0.base.localNodeId == s.base.localNodeId && res.0.base.peers == s.base.peers &&
            res.0.base.store.bundles.Keys == s.base.store.bundles.Keys
  {
    DispatchEach(s, now, senders, order, R.ActivePeers(s.base.peers, peerOrder, now))
  }

  /** `NotifyPeerAppeared`: record the peer under its node identifier, then
      dispatch. */
  function NotifyPeerAppeared(s: SprayRouter, peer: R.PeerInfo, now: DtnTime.Time, senders: seq<R.Sender>,
                              order: seq<Store.Key>, peerOrder: seq<string>): (res: (SprayRouter, seq<R.Attempt>))
    requires R.LocalNode(s.base.localNodeId)
    requires Store.Enumerates(order, s.base.store.bundles)
    requires R.EnumeratesPeers(peerOrder, s.base.peers[peer.nodeId.uri := peer])
    ensures res.0.base.peers == s.base.peers[peer.nodeId.uri := peer]
    ensures res.0.maxCopies == s.maxCopies
  {
    DispatchBundles(s.(base := s.base.(peers := s.base.peers[peer.nodeId.uri := peer])), now, senders, order, peerOrder)
  }

  // What dispatch does to the copy counts

  /** An expired bundle is skipped: nothing is sent and nothing changes. */
  lemma ExpiredSkipped(s: SprayRouter, now: DtnTime.Time, senders: seq<R.Sender>, k: Store.Key, active: seq<R.PeerInfo>)
    requires R.LocalNode(s.base.localNodeId) && k in s.base.store.bundles
    requires R.DescKey(s.base.store.bundles[k].primary) in s.base.descriptors
    requires R.DescriptorExpired(s.base.descriptors[R.DescKey(s.base.store.bundles[k].primary)], now)
    ensures DispatchOne(s, now, senders, k, active) == (s, [])
  {
  }

  /** With one copy left a bundle only goes to its destination, and its
      count stays as it is. */
  lemma WaitingGoesToDestination(s: SprayRouter, now: DtnTime.Time, senders: seq<R.Sender>, k: Store.Key,
                                 active: seq<R.PeerInfo>)
    requires R.LocalNode(s.base.localNodeId) && k in s.base.store.bundles
    requires GetCopyCount(s, R.DescKey(s.base.store.bundles[k].primary)) <= 1
    ensures DispatchOne(s, now, senders, k, active).0.copies == s.copies
    ensures forall i :: 0 <= i < |DispatchOne(s, now, senders, k, active).1| ==>
              Endpoint.Equal(DispatchOne(s, now, senders, k, active).1[i].peer, s.base.store.bundles[k].primary.destination)
  {
  }

  /** A bundle holding `c` copies reaches at most `c - 1` peers in one
      dispatch, and keeps at least one copy. */
  lemma SprayingBudget(s: SprayRouter, now: DtnTime.Time, senders: seq<R.Sender>, k: Store.Key, active: seq<R.PeerInfo>)
    requires R.LocalNode(s.base.localNodeId) && k in s.base.store.bundles
    requires GetCopyCount(s, R.DescKey(s.base.store.bundles[k].primary)) > 1
    ensures 1 <= GetCopyCount(DispatchOne(s, now, senders, k, active).0, R.DescKey(s.base.store.bundles[k].primary))
    ensures Successes(DispatchOne(s, now, senders, k, active).1) < GetCopyCount(s, R.DescKey(s.base.store.bundles[k].primary))
  {
    SprayToCopies(s, senders, s.base.store.bundles[k], active);
  }

  /** Dispatching one bundle never raises a count and keeps the counts in
      range. */
  lemma DispatchOneCopies(s: SprayRouter, now: DtnTime.Time, senders: seq<R.Sender>, k: Store.Key, active: seq<R.PeerInfo>)
    requires R.LocalNode(s.base.localNodeId) && k in s.base.store.bundles
    ensures forall j :: GetCopyCount(DispatchOne(s, now, senders, k, active).0, j) <= GetCopyCount(s, j)
    ensures CopiesValid(s) ==> CopiesValid(DispatchOne(s, now, senders, k, active).0)
  {
    var b := s.base.store.bundles[k];
    if GetCopyCount(s, R.DescKey(b.primary)) > 1 {
      SprayToCopies(s, senders, b, active);
    }
  }

  lemma {:induction false} DispatchEachCopies(s: SprayRouter, now: DtnTime.Time, senders: seq<R.Sender>,
                                              keys: seq<Store.Key>, active: seq<R.PeerInfo>)
    requires R.LocalNode(s.base.localNodeId)
    requires forall i :: 0 <= i < |keys| ==> keys[i] in s.base.store.bundles
    ensures forall j :: GetCopyCount(DispatchEach(s, now, senders, keys, active).0, j) <= GetCopyCount(s, j)
    ensures CopiesValid(s) ==> CopiesValid(DispatchEach(s, now, senders, keys, active).0)
    decreases |keys|
  {
    if |keys| > 0 {
      var s1 := DispatchOne(s, now, senders, keys[0], active).0;
      DispatchOneCopies(s, now, senders, keys[0], active);
      DispatchEachCopies(s1, now, senders, keys[1..], active);
    }
  }

  /** Dispatch never raises a bundle's copy count and keeps every count
      between one and the budget. */
  lemma DispatchCopies(s: SprayRouter, now: DtnTime.Time, senders: seq<R.Sender>,
                       order: seq<Store.Key>, peerOrder: seq<string>)
    requires R.LocalNode(s.base.localNodeId)
    requires Store.Enumerates(order, s.base.store.bundles) && R.EnumeratesPeers(peerOrder, s.base.peers)
    ensures forall j :: GetCopyCount(DispatchBundles(s, now, senders, order, peerOrder).0, j) <= GetCopyCount(s, j)
    ensures CopiesValid(s) ==> CopiesValid(DispatchBundles(s, now, senders, order, peerOrder).0)
  {
    DispatchEachCopies(s, now, senders, order, R.ActivePeers(s.base.peers, peerOrder, now));
  }

  // Whom dispatch sends to

  /** The bundle's descriptor, if it has one, records none of the nodes the
      sends of `log` went to. */
  ghost predicate AllFresh(r: R.Router, d: R.Key, log: seq<R.Attempt>) {
    forall i :: 0 <= i < |log| ==> d in r.descriptors ==> !R.SentTo(r.descriptors[d], log[i].peer)
  }

  /** None of the sends of `log` went to this node. */
  predicate NoneLocal(log: seq<R.Attempt>, local: R.NodeId) {
    forall i :: 0 <= i < |log| ==> !Endpoint.Equal(log[i].peer, local)
  }

  /** Sends justified after the first ones were justified before them. */
  lemma FreshAppend(r: R.Router, t: R.Router, d: R.Key, log1: seq<R.Attempt>, log2: seq<R.Attempt>)
    requires R.Grows(r, t) && AllFresh(r, d, log1) && AllFresh(t, d, log2)
    ensures AllFresh(r, d, log1 + log2)
  {
    assert d in r.descriptors ==> R.Extends(r.descriptors[d], t.descriptors[d]);
    forall i | |log1| <= i < |log1 + log2| ensures (log1 + log2)[i] == log2[i - |log1|] {
    }
  }

  lemma NoneLocalAppend(log1: seq<R.Attempt>, log2: seq<R.Attempt>, local: R.NodeId)
    requires NoneLocal(log1, local) && NoneLocal(log2, local)
    ensures NoneLocal(log1 + log2, local)
  {
    forall i | |log1| <= i < |log1 + log2| ensures (log1 + log2)[i] == log2[i - |log1|] {
    }
  }

  /** One spray peer grows the router, and its send, if any, goes to a node
      other than this one that the descriptor does not record. */
  lemma SprayPeerFresh(s: SprayRouter, senders: seq<R.Sender>, b: B.Bundle, p: R.PeerInfo)
    requires R.LocalNode(s.base.localNodeId)
    ensures R.Grows(s.base, SprayPeer(s, senders, b, p).0.base)
    ensures AllFresh(s.base, R.DescKey(b.primary), SprayPeer(s, senders, b, p).2)
    ensures NoneLocal(SprayPeer(s, senders, b, p).2, s.base.localNodeId)
  {
    if R.Offerable(s.base, b.primary, p) {
      SprayStepSends(s, senders, b, p);
      R.SendStoredGrows(s.base, senders, b, p);
    }
  }

  /** Every spray send goes to a node other than this one that the bundle's
      descriptor did not record at the start. */
  lemma {:induction false} SprayToFresh(s: SprayRouter, senders: seq<R.Sender>, b: B.Bundle, peers: seq<R.PeerInfo>)
    requires R.LocalNode(s.base.localNodeId)
    ensures R.Grows(s.base, SprayTo(s, senders, b, peers).0.base)
    ensures AllFresh(s.base, R.DescKey(b.primary), SprayTo(s, senders, b, peers).1)
    ensures NoneLocal(SprayTo(s, senders, b, peers).1, s.base.localNodeId)
    decreases |peers|
  {
    if |peers| > 0 {
      var (s1, b1, log1, stop) := SprayPeer(s, senders, b, peers[0]);
      SprayPeerFresh(s, senders, b, peers[0]);
      if !stop {
        SprayToFresh(s1, senders, b1, peers[1..]);
        var (s2, log2) := SprayTo(s1, senders, b1, peers[1..]);
        FreshAppend(s.base, s1.base, R.DescKey(b.primary), log1, log2);
        NoneLocalAppend(log1, log2, s.base.localNodeId);
        R.GrowsTransitive(s.base, s1.base, s2.base);
      }
    }
  }

  /** One wait peer grows the router, and its send, if any, goes to a node
      the descriptor does not record. */
  lemma WaitPeerFresh(s: SprayRouter, senders: seq<R.Sender>, b: B.Bundle, p: R.PeerInfo)
    requires R.LocalNode(s.base.localNodeId)
    ensures R.Grows(s.base, WaitPeer(s, senders, b, p).0.base)
    ensures AllFresh(s.base, R.DescKey(b.primary), WaitPeer(s, senders, b, p).2)
  {
    R.SendStoredGrows(s.base, senders, b, p);
  }

  /** Every wait-phase send goes to a node the bundle's descriptor did not
      record at the start. */
  lemma {:induction false} WaitForFresh(s: SprayRouter, senders: seq<R.Sender>, b: B.Bundle, peers: seq<R.PeerInfo>)
    requires R.LocalNode(s.base.localNodeId)
    ensures R.Grows(s.base, WaitFor(s, senders, b, peers).0.base)
    ensures AllFresh(s.base, R.DescKey(b.primary), WaitFor(s, senders, b, peers).1)
    decreases |peers|
  {
    if |peers| > 0 {
      var (s1, b1, log1) := WaitPeer(s, senders, b, peers[0]);
      WaitPeerFresh(s, senders, b, peers[0]);
      WaitForFresh(s1, senders, b1, peers[1..]);
      var (s2, log2) := WaitFor(s1, senders, b1, peers[1..]);
      FreshAppend(s.base, s1.base, R.DescKey(b.primary), log1, log2);
      R.GrowsTransitive(s.base, s1.base, s2.base);
    }
  }

  /** Dispatching one bundle never sends it to a node its descriptor already
      records, and while spraying never to this node. */
  lemma DispatchOneFresh(s: SprayRouter, now: DtnTime.Time, senders: seq<R.Sender>, k: Store.Key, active: seq<R.PeerInfo>)
    requires R.LocalNode(s.base.localNodeId) && k in s.base.store.bundles
    ensures AllFresh(s.base, R.DescKey(s.base.store.bundles[k].primary), DispatchOne(s, now, senders, k, active).1)
    ensures GetCopyCount(s, R.DescKey(s.base.store.bundles[k].primary)) > 1 ==>
              NoneLocal(DispatchOne(s, now, senders, k, active).1, s.base.localNodeId)
  {
    var b := s.base.store.bundles[k];
    if GetCopyCount(s, R.DescKey(b.primary)) > 1 {
      SprayToFresh(s, senders, b, active);
    } else {
      WaitForFresh(s, senders, b, active);
    }
  }

  // Validity

  lemma WaitPeerKeepsValid(s: SprayRouter, senders: seq<R.Sender>, b: B.Bundle, p: R.PeerInfo)
    requires R.Valid(s.base)
    ensures R.Valid(WaitPeer(s, senders, b, p).0.base)
  {
    R.SendStoredKeepsValid(s.base, senders, b, p);
  }

  lemma {:induction false} WaitForKeepsValid(s: SprayRouter, senders: seq<R.Sender>, b: B.Bundle, peers: seq<R.PeerInfo>)
    requires R.Valid(s.base)
    ensures R.Valid(WaitFor(s, senders, b, peers).0.base)
    decreases |peers|
  {
    if |peers| > 0 {
      WaitPeerKeepsValid(s, senders, b, peers[0]);
      var (s1, b1, _) := WaitPeer(s, senders, b, peers[0]);
      WaitForKeepsValid(s1, senders, b1, peers[1..]);
    }
  }

  lemma SprayPeerKeepsValid(s: SprayRouter, senders: seq<R.Sender>, b: B.Bundle, p: R.PeerInfo)
    requires R.Valid(s.base)
    ensures R.Valid(SprayPeer(s, senders, b, p).0.base)
  {
    SprayStepSends(s, senders, b, p);
    R.SendStoredKeepsValid(s.base, senders, b, p);
  }

  lemma {:induction false} SprayToKeepsValid(s: SprayRouter, senders: seq<R.Sender>, b: B.Bundle, peers: seq<R.PeerInfo>)
    requires R.Valid(s.base)
    ensures R.Valid(SprayTo(s, senders, b, peers).0.base)
    decreases |peers|
  {
    if |peers| > 0 {
      SprayPeerKeepsValid(s, senders, b, peers[0]);
      var (s1, b1, _, stop) := SprayPeer(s, senders, b, peers[0]);
      if !stop {
        SprayToKeepsValid(s1, senders, b1, peers[1..]);
      }
    }
  }

  lemma DispatchOneKeepsValid(s: SprayRouter, now: DtnTime.Time, senders: seq<R.Sender>, k: Store.Key,
                              active: seq<R.PeerInfo>)
    requires R.Valid(s.base) && k in s.base.store.bundles
    ensures R.Valid(DispatchOne(s, now, senders, k, active).0.base)
  {
    var b := s.base.store.bundles[k];
    var d := R.DescKey(b.primary);
    if d in s.base.descriptors && R.DescriptorExpired(s.base.descriptors[d], now) {
    } else if GetCopyCount(s, d) <= 1 {
      WaitForKeepsValid(s, senders, b, active);
      assert DispatchOne(s, now, senders, k, active) == WaitFor(s, senders, b, active);
    } else {
      SprayToKeepsValid(s, senders, b, active);
      assert DispatchOne(s, now, senders, k, active) == SprayTo(s, senders, b, active);
    }
  }

  /** One step of the walk over the stored bundles, for the inductive proofs. */
  lemma DispatchEachStep(s: SprayRouter, now: DtnTime.Time, senders: seq<R.Sender>,
                         keys: seq<Store.Key>, active: seq<R.PeerInfo>)
    requires R.LocalNode(s.base.localNodeId) && |keys| > 0
    requires forall i :: 0 <= i < |keys| ==> keys[i] in s.base.store.bundles
    ensures var s1 := DispatchOne(s, now, senders, keys[0], active).0;
            (forall i :: 0 <= i < |keys| - 1 ==> keys[1..][i] in s1.base.store.bundles) &&
            DispatchEach(s, now, senders, keys, active).0 == DispatchEach(s1, now, senders, keys[1..], active).0
  {
  }

  lemma {:induction false} DispatchEachKeepsValid(s: SprayRouter, now: DtnTime.Time, senders: seq<R.Sender>,
                                                  keys: seq<Store.Key>, active: seq<R.PeerInfo>)
    requires R.Valid(s.base)
    requires forall i :: 0 <= i < |keys| ==> keys[i] in s.base.store.bundles
    ensures R.Valid(DispatchEach(s, now, senders, keys, active).0.base)
    decreases |keys|
  {
    if |keys| > 0 {
      var s1 := DispatchOne(s, now, senders, keys[0], active).0;
      DispatchOneKeepsValid(s, now, senders, keys[0], active);
      DispatchEachStep(s, now, senders, keys, active);
      DispatchEachKeepsValid(s1, now, senders, keys[1..], active);
    }
  }

  /** Dispatch keeps the router valid. */
  lemma DispatchKeepsValid(s: SprayRouter, now: DtnTime.Time, senders: seq<R.Sender>,
                           order: seq<Store.Key>, peerOrder: seq<string>)
    requires Valid(s)
    requires Store.Enumerates(order, s.base.store.bundles) && R.EnumeratesPeers(peerOrder, s.base.peers)
    ensures Valid(DispatchBundles(s, now, senders, order, peerOrder).0)
  {
    DispatchEachKeepsValid(s, now, senders, order, R.ActivePeers(s.base.peers, peerOrder, now));
    DispatchCopies(s, now, senders, order, peerOrder);
  }
}

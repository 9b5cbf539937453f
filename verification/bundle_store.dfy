/** The in-memory bundle store (`memory-bundle-store.cc`): bundles keyed by
    identifier up to a capacity, lookup, removal, listing and filtering, and
    removal of expired bundles. */
module BundleStore {
  import opened Wrappers
  import DtnTime
  import BundleId
  import Primary = PrimaryBlock
  import B = Bundle

  /** The default of the `MaxBundles` attribute. */
  const DEFAULT_MAX_BUNDLES: nat := 1000

  /** The largest capacity the `uint32_t` attribute can hold. */
  const MAX_CAPACITY: nat := 0xFFFF_FFFF

  /** The store's hash map is keyed by `BundleID` equality, which is equality
      of identifier keys (`BundleId.EqualIffSameKey`). */
  type Key = BundleId.IdKey

  datatype Store = Store(bundles: map<Key, B.Bundle>, maxBundles: nat)

  function KeyOf(b: B.Bundle): Key {
    BundleId.Key(B.GetId(b))
  }

  /** Every bundle is stored under its own identifier, and there are never
      more bundles than the capacity, which is at least one. */
  predicate Valid(s: Store) {
    1 <= s.maxBundles <= MAX_CAPACITY &&
    |s.bundles| <= s.maxBundles &&
    forall k :: k in s.bundles ==> KeyOf(s.bundles[k]) == k
  }

  /** A new store with the given capacity. */
  function NewStore(maxBundles: nat): (s: Store)
    requires 1 <= maxBundles <= MAX_CAPACITY
    ensures Valid(s) && Count(s) == 0 && s.maxBundles == maxBundles
  {
    Store(map[], maxBundles)
  }

  function Count(s: Store): nat {
    |s.bundles|
  }

  // Push, Get, Has, Remove

  /** `Push`, with a null pointer as `None`. A full store refuses every
      bundle, even one whose identifier it already holds; otherwise the
      bundle is stored under its identifier, replacing any earlier one. */
  function Push(s: Store, b: Option<B.Bundle>): (r: (Store, bool))
    ensures r.1 <==> b.Some? && Count(s) < s.maxBundles
    ensures !r.1 ==> r.0 == s
    ensures r.1 ==> r.0.maxBundles == s.maxBundles &&
                    r.0.bundles.Keys == s.bundles.Keys + {KeyOf(b.value)} &&
                    r.0.bundles[KeyOf(b.value)] == b.value &&
                    forall k :: k in s.bundles && k != KeyOf(b.value) ==> r.0.bundles[k] == s.bundles[k]
  {
    if b.None? then (s, false)
    else if |s.bundles| >= s.maxBundles then (s, false)
    else (s.(bundles := s.bundles[KeyOf(b.value) := b.value]), true)
  }

  /** `Get`: the bundle stored under an identifier equal to `id`. */
  function Get(s: Store, id: BundleId.BundleId): (r: Option<B.Bundle>)
    ensures r.Some? <==> BundleId.Key(id) in s.bundles
    ensures Valid(s) && r.Some? ==> BundleId.Equal(B.GetId(r.value), id)
  {
    var k := BundleId.Key(id);
    if k in s.bundles then
      BundleId.EqualIffSameKey(B.GetId(s.bundles[k]), id);
      Some(s.bundles[k])
    else None
  }

  /** `Has`. */
  function Has(s: Store, id: BundleId.BundleId): (r: bool)
    ensures r <==> Get(s, id).Some?
  {
    BundleId.Key(id) in s.bundles
  }

  /** `Remove`: drops the entry for `id`, reporting whether there was one. */
  function Remove(s: Store, id: BundleId.BundleId): (r: (Store, bool))
    ensures r.1 <==> Has(s, id)
    ensures r.0.maxBundles == s.maxBundles
    ensures r.0.bundles.Keys == s.bundles.Keys - {BundleId.Key(id)}
    ensures forall k :: k in r.0.bundles ==> r.0.bundles[k] == s.bundles[k]
  {
    var k := BundleId.Key(id);
    if k in s.bundles then (s.(bundles := s.bundles - {k}), true) else (s, false)
  }

  /** Push never lets the store outgrow its capacity. */
  lemma PushKeepsValid(s: Store, b: Option<B.Bundle>)
    requires Valid(s)
    ensures Valid(Push(s, b).0)
  {
  }

  /** Remove keeps the store valid. */
  lemma RemoveKeepsValid(s: Store, id: BundleId.BundleId)
    requires Valid(s)
    ensures Valid(Remove(s, id).0)
  {
    var (r, _) := Remove(s, id);
    assert r.bundles.Keys <= s.bundles.Keys;
    SubsetCard(r.bundles.Keys, s.bundles.Keys);
  }

  lemma SubsetCard<T>(a: set<T>, b: set<T>)
    requires a <= b
    ensures |a| <= |b|
  {
    assert b == a + (b - a);
  }

  /** After a successful push the bundle is found under its identifier and
      under every identifier equal to it, and every other lookup is as
      before. */
  lemma GetAfterPush(s: Store, b: B.Bundle, id: BundleId.BundleId)
    requires Push(s, Some(b)).1
    ensures BundleId.Equal(id, B.GetId(b)) ==> Get(Push(s, Some(b)).0, id) == Some(b)
    ensures !BundleId.Equal(id, B.GetId(b)) ==> Get(Push(s, Some(b)).0, id) == Get(s, id)
  {
    BundleId.EqualIffSameKey(id, B.GetId(b));
  }

  /** After a removal nothing equal to the identifier is found, and every
      other lookup is as before. */
  lemma GetAfterRemove(s: Store, id: BundleId.BundleId, other: BundleId.BundleId)
    ensures !Has(Remove(s, id).0, id)
    ensures !BundleId.Equal(other, id) ==> Get(Remove(s, id).0, other) == Get(s, other)
  {
    BundleId.EqualIffSameKey(other, id);
  }

  /** Removing a bundle that a push has just added restores the store. */
  lemma RemoveUndoesPush(s: Store, b: B.Bundle)
    requires Push(s, Some(b)).1 && !Has(s, B.GetId(b))
    ensures Remove(Push(s, Some(b)).0, B.GetId(b)) == (s, true)
  {
    var t := Push(s, Some(b)).0;
    assert Remove(t, B.GetId(b)).0.bundles == s.bundles;
  }

  // GetAll and Query

  /** An iteration order of the hash map: every key exactly once. The order
      itself depends on the hash function and is passed in. */
  predicate Enumerates(order: seq<Key>, bundles: map<Key, B.Bundle>) {
    (forall k :: k in bundles ==> k in order) &&
    (forall i :: 0 <= i < |order| ==> order[i] in bundles) &&
    (forall i, j :: 0 <= i < j < |order| ==> order[i] != order[j])
  }

  /** `GetAll`: the stored bundles in iteration order. */
  function GetAll(s: Store, order: seq<Key>): (r: seq<B.Bundle>)
    requires Enumerates(order, s.bundles)
    ensures |r| == Count(s)
    ensures forall b :: b in r <==> b in s.bundles.Values
  {
    EnumerationSize(order, s.bundles);
    ListsInOrder(s, order);
    Query(s, order, _ => true)
  }

  /** `Query`: the stored bundles that satisfy the predicate, in iteration
      order. */
  function Query(s: Store, order: seq<Key>, pred: B.Bundle -> bool): (r: seq<B.Bundle>)
    requires forall i :: 0 <= i < |order| ==> order[i] in s.bundles
    ensures |r| <= |order|
    ensures forall b :: b in r <==> exists i :: 0 <= i < |order| && s.bundles[order[i]] == b && pred(b)
    decreases |order|
  {
    if |order| == 0 then []
    else
      var rest := Query(s, order[1..], pred);
      assert forall i :: 0 <= i < |order| - 1 ==> order[1..][i] == order[i + 1];
      var b := s.bundles[order[0]];
      if pred(b) then [b] + rest else rest
  }

  /** A duplicate-free enumeration of the keys is as long as the map. */
  lemma {:induction false} EnumerationSize(order: seq<Key>, bundles: map<Key, B.Bundle>)
    requires Enumerates(order, bundles)
    ensures |order| == |bundles|
  {
    DistinctCard(order);
    assert (set i | 0 <= i < |order| :: order[i]) == bundles.Keys;
  }

  lemma {:induction false} DistinctCard(order: seq<Key>)
    requires forall i, j :: 0 <= i < j < |order| ==> order[i] != order[j]
    ensures |set i | 0 <= i < |order| :: order[i]| == |order|
  {
    if |order| > 0 {
      var tail := order[1..];
      DistinctCard(tail);
      var s := set i | 0 <= i < |order| :: order[i];
      var t := set i | 0 <= i < |tail| :: tail[i];
      assert s == t + {order[0]} by {
        forall x | x in s ensures x in t + {order[0]} {
          var i :| 0 <= i < |order| && order[i] == x;
          if i > 0 { assert tail[i - 1] == x; }
        }
      }
      assert order[0] !in t;
    }
  }

  /** In a valid store `GetAll` lists each stored bundle exactly once: the
      listed bundles are pairwise distinct. */
  lemma GetAllOnce(s: Store, order: seq<Key>)
    requires Valid(s) && Enumerates(order, s.bundles)
    ensures forall i, j :: 0 <= i < j < |GetAll(s, order)| ==> GetAll(s, order)[i] != GetAll(s, order)[j]
  {
    ListsInOrder(s, order);
    var r := GetAll(s, order);
    forall i, j | 0 <= i < j < |r| ensures r[i] != r[j] {
      assert KeyOf(r[i]) == order[i] && KeyOf(r[j]) == order[j];
    }
  }

  /** With the always-true predicate, `Query` lists the stored bundle of
      every key in iteration order. */
  lemma {:induction false} ListsInOrder(s: Store, order: seq<Key>)
    requires forall i :: 0 <= i < |order| ==> order[i] in s.bundles
    ensures |Query(s, order, _ => true)| == |order|
    ensures forall i :: 0 <= i < |order| ==> Query(s, order, _ => true)[i] == s.bundles[order[i]]
    decreases |order|
  {
    if |order| > 0 {
      ListsInOrder(s, order[1..]);
    }
  }

  /** Querying with a predicate keeps exactly the listed bundles that satisfy
      it. */
  lemma QueryFiltersGetAll(s: Store, order: seq<Key>, pred: B.Bundle -> bool)
    requires Enumerates(order, s.bundles)
    ensures forall b :: b in Query(s, order, pred) <==> b in GetAll(s, order) && pred(b)
  {
  }

  // Expiry

  /** `IsExpired`: the clock `now` is past creation time plus lifetime. */
  predicate IsExpired(b: B.Bundle, now: DtnTime.Time) {
    now > Primary.ExpirationTime(b.primary)
  }

  /** `Cleanup`: drops every expired bundle and returns how many it
      dropped. */
  function Cleanup(s: Store, now: DtnTime.Time): (r: (Store, nat))
    ensures r.0.maxBundles == s.maxBundles
    ensures forall k :: k in r.0.bundles <==> k in s.bundles && !IsExpired(s.bundles[k], now)
    ensures forall k :: k in r.0.bundles ==> r.0.bundles[k] == s.bundles[k]
    ensures r.1 + Count(r.0) == Count(s)
  {
    var (kept, removed) := KeepWhere(s.bundles, b => !IsExpired(b, now));
    (s.(bundles := kept), removed)
  }

  /** The entries whose bundle satisfies `keep`, and how many were left
      behind. */
  function KeepWhere(m: map<Key, B.Bundle>, keep: B.Bundle -> bool): (r: (map<Key, B.Bundle>, nat))
    ensures forall k :: k in r.0 <==> k in m && keep(m[k])
    ensures forall k :: k in r.0 ==> r.0[k] == m[k]
    ensures r.1 + |r.0| == |m|
  {
    var kept := map k | k in m && keep(m[k]) :: m[k];
    var removed := set k | k in m && !keep(m[k]);
    assert kept.Keys + removed == m.Keys && kept.Keys * removed == {};
    (kept, |removed|)
  }

  lemma CleanupKeepsValid(s: Store, now: DtnTime.Time)
    requires Valid(s)
    ensures Valid(Cleanup(s, now).0)
  {
  }

  /** After a cleanup no query for expired bundles finds anything, and a
      second cleanup at the same time removes nothing. */
  lemma CleanupLeavesNoneExpired(s: Store, now: DtnTime.Time, order: seq<Key>)
    requires Enumerates(order, Cleanup(s, now).0.bundles)
    ensures Query(Cleanup(s, now).0, order, b => IsExpired(b, now)) == []
    ensures Cleanup(Cleanup(s, now).0, now) == (Cleanup(s, now).0, 0)
  {
    var kept := Cleanup(s, now).0;
    var (again, _) := Cleanup(kept, now);
    assert again == kept;
    QueryNone(kept, order, b => IsExpired(b, now));
  }

  /** A bundle created at the DTN epoch with a lifetime of 9223372036855 ms
      (about 292 years) expires at a wrapped, negative time, so every
      cleanup drops it at once. */
  lemma LongLifetimeDroppedAtOnce(s: Store, now: DtnTime.Time, k: Key)
    requires now >= 0
    requires k in s.bundles
    requires s.bundles[k].primary.creation == DtnTime.DtnTime(0, 0)
    requires s.bundles[k].primary.lifetimeMs == 9_223_372_036_855
    ensures IsExpired(s.bundles[k], now)
    ensures k !in Cleanup(s, now).0.bundles
  {
    Primary.ExpirationWraps(s.bundles[k].primary);
  }

  /** A predicate no listed bundle satisfies selects nothing. */
  lemma {:induction false} QueryNone(s: Store, order: seq<Key>, pred: B.Bundle -> bool)
    requires forall i :: 0 <= i < |order| ==> order[i] in s.bundles && !pred(s.bundles[order[i]])
    ensures Query(s, order, pred) == []
    decreases |order|
  {
    if |order| > 0 {
      QueryNone(s, order[1..], pred);
    }
  }
}

/**
 The hot cache in front of the disk store. It holds unfiltered answers by routing key,
 and drops on a store only the keys of the new version. The cache may lose entries at
 any moment, and the clock does not go back.
 */
module CacheLayer {
  import opened Prelude
  import opened Descriptors
  import opened SlotMachine
  import opened RedbTables
  import opened DiskStore

  type Cache = map<seq<byte>, seq<Descriptor>>

  /** Of the descriptors live now, the cached answer has exactly those of the backend. */
  ghost predicate Fresh(p: Primitives, m: SlotMap, cached: seq<Descriptor>, key: Hash, now: nat) {
    forall d: Descriptor | Live(d, now) :: d in cached <==> HubReturned(p, m, key, None, now, d)
  }

  ghost predicate Agrees(p: Primitives, m: SlotMap, cache: Cache, now: nat) {
    forall key: Hash | HashBytes(key) in cache :: Fresh(p, m, cache[HashBytes(key)], key, now)
  }

  /** Some cached key of the live version that `d` replaces is missing from `d`. */
  ghost predicate DropsCachedKey(p: Primitives, m: SlotMap, cache: Cache, d: Descriptor, now: nat) {
    var dk := DedupKey(p, d);
    dk in m && Live(m[dk], now)
    && exists key <- m[dk].routingKeys :: key !in d.routingKeys && HashBytes(key) in cache
  }

  function Invalidate(cache: Cache, keys: seq<Hash>): Cache {
    cache - set key | key in keys :: HashBytes(key)
  }

  lemma AgreesLater(p: Primitives, m: SlotMap, cache: Cache, now: nat, later: nat)
    requires Agrees(p, m, cache, now) && now <= later
    ensures Agrees(p, m, cache, later)
  {
    hide HashBytes, DedupKey;
    forall key: Hash | HashBytes(key) in cache ensures Fresh(p, m, cache[HashBytes(key)], key, later) {
      assert Fresh(p, m, cache[HashBytes(key)], key, now);
    }
  }

  /** Losing entries, for whatever reason, harms nothing. */
  lemma AgreesAfterLoss(p: Primitives, m: SlotMap, cache: Cache, lost: set<seq<byte>>, now: nat)
    requires Agrees(p, m, cache, now)
    ensures Agrees(p, m, cache - lost, now)
  {
    hide Fresh, HashBytes;
  }

  lemma FreshAfterStore(p: Primitives, m: SlotMap, cached: seq<Descriptor>, d: Descriptor, key: Hash, now: nat)
    requires Fresh(p, m, cached, key, now) && key !in d.routingKeys
    requires DedupKey(p, d) in m ==> DedupKey(p, m[DedupKey(p, d)]) == DedupKey(p, d)
    ensures Fresh(p, m[DedupKey(p, d) := d], cached, key, now)
       <==> !(DedupKey(p, d) in m && Live(m[DedupKey(p, d)], now) && key in m[DedupKey(p, d)].routingKeys)
  {
    hide DedupKey, Live;
    var dk := DedupKey(p, d);
    if dk in m && Live(m[dk], now) && key in m[dk].routingKeys {
      var older := m[dk];
      assert HubReturned(p, m, key, None, now, older) && !HubReturned(p, m[dk := d], key, None, now, older);
      assert older in cached;
    }
  }

  /**
   A store keeps the cache in agreement exactly when the new version drops no cached key
   of the live version it replaces.
   */
  lemma AgreesAfterStoreExactly(p: Primitives, m: SlotMap, cache: Cache, d: Descriptor, now: nat)
    requires Proper(p, m) && Agrees(p, m, cache, now)
    ensures Agrees(p, m[DedupKey(p, d) := d], Invalidate(cache, d.routingKeys), now)
       <==> !DropsCachedKey(p, m, cache, d, now)
  {
    hide DedupKey, Live, Fresh, HashBytes, Authentic;
    var m', cache' := m[DedupKey(p, d) := d], Invalidate(cache, d.routingKeys);
    forall key: Hash
      ensures HashBytes(key) in cache' <==> HashBytes(key) in cache && key !in d.routingKeys
      ensures HashBytes(key) in cache' ==> cache'[HashBytes(key)] == cache[HashBytes(key)]
    {
      forall other <- d.routingKeys { HashBytesInjective(key, other); }
    }
    forall key: Hash | HashBytes(key) in cache'
      ensures Fresh(p, m', cache'[HashBytes(key)], key, now)
         <==> !(DedupKey(p, d) in m && Live(m[DedupKey(p, d)], now) && key in m[DedupKey(p, d)].routingKeys)
    {
      FreshAfterStore(p, m, cache[HashBytes(key)], d, key, now);
    }
  }

  // ----- the steps of the cached store

  datatype CacheOp =
    | GetOp(key: Hash, at: nat)
    | PutOp(d: Descriptor, at: nat)
    | EvictOp(at: nat)
    | LoseOp(lost: set<seq<byte>>, at: nat)

  datatype Layer = Layer(slots: SlotMap, cache: Cache)

  ghost predicate AnswersGet(p: Primitives, m: SlotMap, all: seq<Descriptor>, key: Hash, now: nat) {
    forall d: Descriptor :: d in all <==> HubReturned(p, m, key, None, now, d)
  }

  ghost predicate Loaded(p: Primitives, a: Layer, key: Hash, now: nat, b: Layer) {
    exists all: seq<Descriptor> ::
      AnswersGet(p, a.slots, all, key, now) && b == a.(cache := a.cache[HashBytes(key) := all])
  }

  /** A put that the backend refuses changes nothing. */
  ghost predicate CacheStep(p: Primitives, a: Layer, op: CacheOp, b: Layer) {
    match op
    case GetOp(key, now) => if HashBytes(key) in a.cache then b == a else Loaded(p, a, key, now, b)
    case PutOp(d, _) => b == a || Accepted(p, a, d, b)
    case EvictOp(now) => b == Layer(HubEvict(a.slots, now), map[])
    case LoseOp(lost, _) => b == a.(cache := a.cache - lost)
  }

  ghost predicate Accepted(p: Primitives, a: Layer, d: Descriptor, b: Layer) {
    && Authentic(p, d) && !Stale(p, a.slots, d)
    && b == Layer(a.slots[DedupKey(p, d) := d], Invalidate(a.cache, d.routingKeys))
  }

  class CachedStorage {
    const inner: RedbStorage
    var cache: Cache

    constructor (inner: RedbStorage)
      ensures this.inner == inner && cache == map[]
    {
      this.inner := inner;
      cache := map[];
    }

    ghost predicate Agreeing(now: nat)
      reads this, inner
    {
      Agrees(inner.primitives, inner.slots, cache, now)
    }

    ghost function Both(): Layer
      reads this, inner
    {
      Layer(inner.slots, cache)
    }

    method StoreDescriptorAt(d: Descriptor, now: Clock) returns (r: Outcome<StoreError>)
      requires inner.Valid()
      modifies this, inner
      ensures inner.Valid()
      ensures HubStep(inner.Abstract(), r)
        == HubStore(inner.primitives, old(inner.Abstract()), d, now, old(inner.skipRateLimit))
      ensures CacheStep(inner.primitives, old(Both()), PutOp(d, now), Both())
      ensures old(Agreeing(now)) ==>
        (Agreeing(now) <==> r.Err? || !DropsCachedKey(inner.primitives, old(inner.slots), old(cache), d, now))
    {
      hide Agrees, DropsCachedKey, Validate, Authentic, Represents, CollisionFree, Invalidate;
      AgreesAfterStore(now, d);
      r := inner.StoreDescriptorAt(d, now);
      if r.Err? {
        return;
      }
      ValidIsAuthentic(inner.primitives, d, now);
      cache := Forget(cache, d.routingKeys);
    }

    lemma AgreesAfterStore(now: nat, d: Descriptor)
      requires inner.Valid()
      ensures Agreeing(now) ==>
        (Agrees(inner.primitives, inner.slots[DedupKey(inner.primitives, d) := d],
                Invalidate(cache, d.routingKeys), now)
         <==> !DropsCachedKey(inner.primitives, inner.slots, cache, d, now))
    {
      if Agreeing(now) {
        AgreesAfterStoreExactly(inner.primitives, inner.slots, cache, d, now);
      }
    }

    /** Whether or not the key is cached, the live part of the answer is the backend's. */
    method GetDescriptors(key: Hash, filters: Option<FilterSet>, now: Clock) returns (ds: seq<Descriptor>)
      requires inner.Valid()
      modifies this`cache
      ensures CacheStep(inner.primitives, old(Both()), GetOp(key, now), Both())
      ensures HashBytes(key) in cache && (filters.None? ==> ds == cache[HashBytes(key)])
      ensures filters.Some? ==> forall d: Descriptor ::
        d in ds <==>
          && d in cache[HashBytes(key)]
          && (filters.value.schemaHash.None? || filters.value.schemaHash == Some(d.schemaHash))
          && (filters.value.minTimestamp.None? || filters.value.minTimestamp.value <= d.timestamp)
          && (filters.value.publisher.None? || filters.value.publisher == Some(d.publisher))
      ensures old(Agreeing(now)) ==> Agreeing(now)
      ensures old(Agreeing(now)) ==> forall d: Descriptor | Live(d, now) ::
        d in ds <==> HubReturned(inner.primitives, inner.slots, key, filters, now, d)
    {
      hide DedupKey, HashBytes, Live, Represents, CollisionFree, Agrees, Matches;
      var rk := HashBytes(key);
      var all;
      if rk in cache {
        all := cache[rk];
      } else {
        all := inner.GetDescriptorsAt(key, None, now);
        assert AnswersGet(inner.primitives, inner.slots, all, key, now);
        LoadKeepsAgreement(all, key, now);
        cache := cache[rk := all];
      }
      ds := Filtered(all, filters);
      CachedIsFresh(key, now);
      FilterIsExact();
    }

    lemma LoadKeepsAgreement(all: seq<Descriptor>, key: Hash, now: nat)
      requires AnswersGet(inner.primitives, inner.slots, all, key, now)
      ensures Agreeing(now) ==> Agrees(inner.primitives, inner.slots, cache[HashBytes(key) := all], now)
    {
      if Agreeing(now) {
        LoadedIsFresh(inner.primitives, inner.slots, cache, all, key, now);
      }
    }

    lemma CachedIsFresh(key: Hash, now: nat)
      requires HashBytes(key) in cache
      ensures Agreeing(now) ==> forall d: Descriptor, filters | Live(d, now) ::
        (HubReturned(inner.primitives, inner.slots, key, filters, now, d)
         <==> d in cache[HashBytes(key)] && Matches(filters, d))
    {
      hide DedupKey, HashBytes, Live, Matches;
      assert Agreeing(now) ==> Fresh(inner.primitives, inner.slots, cache[HashBytes(key)], key, now);
      assert forall d: Descriptor :: Matches(None, d) by { MatchesNone(); }
    }

    method EvictExpiredAt(now: Clock)
      requires inner.Valid()
      modifies this, inner
      ensures inner.Valid()
      ensures CacheStep(inner.primitives, old(Both()), CacheOp.EvictOp(now), Both())
      ensures Agreeing(now)
    {
      inner.EvictExpiredAt(now);
      cache := map[];
    }

    /** The cache evicts by size whenever it likes. */
    method Lose(lost: set<seq<byte>>, ghost now: nat)
      modifies this`cache
      ensures CacheStep(inner.primitives, old(Both()), LoseOp(lost, now), Both())
      ensures old(Agreeing(now)) ==> Agreeing(now)
    {
      if Agreeing(now) {
        AgreesAfterLoss(inner.primitives, inner.slots, cache, lost, now);
      }
      cache := cache - lost;
    }
  }

  lemma LoadedIsFresh(p: Primitives, m: SlotMap, cache: Cache, all: seq<Descriptor>, key: Hash, now: nat)
    requires Agrees(p, m, cache, now)
    requires forall d: Descriptor :: d in all <==> HubReturned(p, m, key, None, now, d)
    ensures Fresh(p, m, all, key, now) && Agrees(p, m, cache[HashBytes(key) := all], now)
  {
    hide HashBytes, HubReturned, Live;
    forall other: Hash | HashBytes(other) == HashBytes(key) ensures other == key {
      HashBytesInjective(other, key);
    }
  }

  method Forget(cache: Cache, keys: seq<Hash>) returns (left: Cache)
    ensures left == Invalidate(cache, keys)
  {
    left := cache;
    for i := 0 to |keys|
      invariant left == Invalidate(cache, keys[..i])
    {
      assert keys[..i + 1] == keys[..i] + [keys[i]];
      left := left - {HashBytes(keys[i])};
    }
    assert keys[..|keys|] == keys;
  }

  method Filtered(ds: seq<Descriptor>, filters: Option<FilterSet>) returns (kept: seq<Descriptor>)
    ensures forall d: Descriptor :: d in kept <==> d in ds && Matches(filters, d)
    ensures filters.None? ==> kept == ds
  {
    hide Matches;
    if filters.None? {
      assert forall d: Descriptor :: Matches(filters, d) by { MatchesNone(); }
      return ds;
    }
    kept := [];
    for i := 0 to |ds|
      invariant forall d: Descriptor :: d in kept <==> d in ds[..i] && Matches(filters, d)
    {
      if Matches(filters, ds[i]) {
        kept := kept + [ds[i]];
      }
    }
  }

  lemma FilterIsExact()
    ensures forall f: FilterSet, d: Descriptor :: Matches(Some(f), d) <==>
      && (f.schemaHash.None? || f.schemaHash == Some(d.schemaHash))
      && (f.minTimestamp.None? || f.minTimestamp.value <= d.timestamp)
      && (f.publisher.None? || f.publisher == Some(d.publisher))
  {
  }

  lemma MatchesNone()
    ensures forall d: Descriptor :: Matches(None, d)
  {
  }

  // ----- runs of the cached store

  ghost predicate CacheRun(p: Primitives, layers: seq<Layer>, ops: seq<CacheOp>) {
    && |layers| == |ops| + 1 && Proper(p, layers[0].slots) && layers[0].cache == map[]
    && (forall i | 0 <= i < |ops| :: CacheStep(p, layers[i], ops[i], layers[i + 1]))
    && (forall i, j | 0 <= i < j < |ops| :: ops[i].at <= ops[j].at)
  }

  /** The step accepts a version without some cached key of the live version that it replaces. */
  ghost predicate Drops(p: Primitives, a: Layer, op: CacheOp, b: Layer) {
    op.PutOp? && Accepted(p, a, op.d, b) && DropsCachedKey(p, a.slots, a.cache, op.d, op.at)
  }

  lemma StepAgreesExactly(p: Primitives, a: Layer, op: CacheOp, b: Layer)
    requires Proper(p, a.slots) && Agrees(p, a.slots, a.cache, op.at) && CacheStep(p, a, op, b)
    ensures Proper(p, b.slots)
    ensures Agrees(p, b.slots, b.cache, op.at) <==> !Drops(p, a, op, b)
  {
    hide DedupKey, Authentic, Live, HashBytes, Fresh, HubReturned, DropsCachedKey;
    match op
    case GetOp(key, now) =>
      if HashBytes(key) !in a.cache {
        var all: seq<Descriptor> :|
          AnswersGet(p, a.slots, all, key, now) && b == a.(cache := a.cache[HashBytes(key) := all]);
        LoadedIsFresh(p, a.slots, a.cache, all, key, now);
      }
    case PutOp(d, now) =>
      if Accepted(p, a, d, b) {
        AgreesAfterStoreExactly(p, a.slots, a.cache, d, now);
      }
    case EvictOp(now) =>
      EvictKeepsProper(p, a.slots, now);
    case LoseOp(lost, now) =>
      AgreesAfterLoss(p, a.slots, a.cache, lost, now);
  }

  /** Up to the first put that drops a cached key, the cache agrees at every moment. */
  lemma {:induction false} AgreesUntilDrop(p: Primitives, layers: seq<Layer>, ops: seq<CacheOp>, n: nat, t: nat)
    requires CacheRun(p, layers, ops) && n <= |ops|
    requires forall i | 0 <= i < n :: ops[i].at <= t && !Drops(p, layers[i], ops[i], layers[i + 1])
    ensures Proper(p, layers[n].slots) && Agrees(p, layers[n].slots, layers[n].cache, t)
  {
    hide Agrees, CacheStep, Proper, Drops;
    if n == 0 {
      EmptyCacheAgrees(p, layers[0].slots, t);
    } else {
      var op := ops[n - 1];
      AgreesUntilDrop(p, layers, ops, n - 1, op.at);
      StepAgreesExactly(p, layers[n - 1], op, layers[n]);
      AgreesLater(p, layers[n].slots, layers[n].cache, op.at, t);
    }
  }

  ghost predicate AgreesThroughout(p: Primitives, layers: seq<Layer>, ops: seq<CacheOp>)
    requires |layers| == |ops| + 1
  {
    forall i | 0 <= i < |ops| :: Agrees(p, layers[i + 1].slots, layers[i + 1].cache, ops[i].at)
  }

  /**
   Over every interleaving of gets, puts, evictions and losses, the cache agrees with the
   backend after each step exactly when no put drops a cached key of a live version.
   */
  lemma CacheAgreesExactly(p: Primitives, layers: seq<Layer>, ops: seq<CacheOp>)
    requires CacheRun(p, layers, ops)
    ensures AgreesThroughout(p, layers, ops)
       <==> forall i | 0 <= i < |ops| :: !Drops(p, layers[i], ops[i], layers[i + 1])
  {
    hide Agrees, CacheStep, Proper, Drops;
    if i :| 0 <= i < |ops| && Drops(p, layers[i], ops[i], layers[i + 1]) {
      var first := FirstDrop(p, layers, ops, i);
      AgreesUntilDrop(p, layers, ops, first, ops[first].at);
      StepAgreesExactly(p, layers[first], ops[first], layers[first + 1]);
    } else {
      forall i | 0 <= i < |ops| ensures Agrees(p, layers[i + 1].slots, layers[i + 1].cache, ops[i].at) {
        AgreesUntilDrop(p, layers, ops, i + 1, ops[i].at);
      }
    }
  }

  lemma {:induction false} FirstDrop(p: Primitives, layers: seq<Layer>, ops: seq<CacheOp>, i: nat) returns (first: nat)
    requires |layers| == |ops| + 1 && i < |ops| && Drops(p, layers[i], ops[i], layers[i + 1])
    ensures first <= i && Drops(p, layers[first], ops[first], layers[first + 1])
    ensures forall j | 0 <= j < first :: !Drops(p, layers[j], ops[j], layers[j + 1])
  {
    hide Drops;
    if j :| 0 <= j < i && Drops(p, layers[j], ops[j], layers[j + 1]) {
      first := FirstDrop(p, layers, ops, j);
    } else {
      first := i;
    }
  }

  /** The new version lists at least the routing keys of the one it replaces. */
  predicate KeepsKeys(p: Primitives, m: SlotMap, d: Descriptor) {
    DedupKey(p, d) in m ==> forall key <- m[DedupKey(p, d)].routingKeys :: key in d.routingKeys
  }

  /** In particular it always agrees while new versions keep the routing keys of the old ones. */
  lemma CacheAlwaysAgrees(p: Primitives, layers: seq<Layer>, ops: seq<CacheOp>)
    requires CacheRun(p, layers, ops)
    requires forall i | 0 <= i < |ops| && ops[i].PutOp? :: KeepsKeys(p, layers[i].slots, ops[i].d)
    ensures AgreesThroughout(p, layers, ops)
  {
    hide Agrees, CacheStep, Proper, Live, AgreesThroughout;
    CacheAgreesExactly(p, layers, ops);
  }

  lemma EmptyCacheAgrees(p: Primitives, m: SlotMap, t: nat)
    ensures Agrees(p, m, map[], t)
  {
  }
}

/**
 The in-memory store: a vector of descriptors per routing key, updated in place.
 Every method is proved to do to the slot map what `SlotMachine` says.
 */
module MemoryStore {
  import opened Prelude
  import opened Descriptors
  import opened StoreRateLimiter
  import opened SlotMachine

  type Index = map<Hash, seq<Descriptor>>

  function At(store: Index, key: Hash): seq<Descriptor> {
    if key in store then store[key] else []
  }

  /** `Vec::retain`. */
  function Retain(ds: seq<Descriptor>, rule: Rule): (kept: seq<Descriptor>)
  {
    if ds == [] then []
    else (if Keeps(rule, ds[0]) then [ds[0]] else []) + Retain(ds[1..], rule)
  }

  lemma {:induction false} RetainCounts(ds: seq<Descriptor>, rule: Rule, d: Descriptor)
    ensures multiset(Retain(ds, rule))[d] == if Keeps(rule, d) then multiset(ds)[d] else 0
  {
    if ds != [] {
      RetainCounts(ds[1..], rule, d);
      assert ds == [ds[0]] + ds[1..];
    }
  }

  /** What is kept stays in order, one by one. */
  lemma {:induction false} RetainInOrder(a: seq<Descriptor>, d: Descriptor, b: seq<Descriptor>, rule: Rule)
    ensures Retain(a + [d] + b, rule) == Retain(a, rule) + (if Keeps(rule, d) then [d] else []) + Retain(b, rule)
  {
    RetainConcat(a + [d], b, rule);
    RetainConcat(a, [d], rule);
    assert Retain([d], rule) == (if Keeps(rule, d) then [d] else []) + Retain([], rule);
    hide Retain, Keeps;
  }

  lemma {:induction false} RetainConcat(a: seq<Descriptor>, b: seq<Descriptor>, rule: Rule)
    ensures Retain(a + b, rule) == Retain(a, rule) + Retain(b, rule)
  {
    hide Keeps;
    if a == [] {
      assert a + b == b;
    } else {
      assert (a + b)[1..] == a[1..] + b;
      RetainConcat(a[1..], b, rule);
    }
  }

  /**
   The index holds the slot map: under each key, each current descriptor stands as often
   as it lists the key, and nothing else stands there.
   */
  ghost predicate Indexes(store: Index, current: map<Slot, Descriptor>) {
    forall key: Hash, d: Descriptor :: multiset(At(store, key))[d] == Expected(current, key, d)
  }

  ghost function Expected(current: map<Slot, Descriptor>, key: Hash, d: Descriptor): nat {
    if SlotOf(d) in current && current[SlotOf(d)] == d then multiset(d.routingKeys)[key] else 0
  }

  ghost predicate OwnSlots(current: map<Slot, Descriptor>) {
    forall s <- current :: SlotOf(current[s]) == s
  }

  // ----- the loops over all vectors

  method RetainInAll(store: Index, rule: Rule) returns (kept: Index)
    ensures kept.Keys == store.Keys
    ensures forall key <- store :: kept[key] == Retain(store[key], rule)
  {
    kept := store;
    var todo := store.Keys;
    while todo != {}
      invariant todo <= store.Keys && kept.Keys == store.Keys
      invariant forall key <- store :: kept[key] == if key in todo then store[key] else Retain(store[key], rule)
      decreases |todo|
    {
      var key :| key in todo;
      kept := kept[key := Retain(kept[key], rule)];
      todo := todo - {key};
    }
  }

  /** `store.retain(|_, v| !v.is_empty())`. */
  function DropEmpty(store: Index): Index {
    map key | key in store && store[key] != [] :: store[key]
  }

  function Push(store: Index, key: Hash, d: Descriptor): Index {
    store[key := At(store, key) + [d]]
  }

  function Copies(d: Descriptor, n: nat): (ds: seq<Descriptor>)
    ensures |ds| == n
  {
    seq(n, _ => d)
  }

  lemma {:induction false} CopiesCount(d: Descriptor, n: nat, x: Descriptor)
    ensures multiset(Copies(d, n))[x] == if x == d then n else 0
  {
    if n > 0 {
      CopiesCount(d, n - 1, x);
      assert Copies(d, n) == Copies(d, n - 1) + [d];
    }
  }

  /** Files `d` at the end of the vector of each of its keys, once per occurrence of the key. */
  method PushUnderEach(store: Index, keys: seq<Hash>, d: Descriptor) returns (pushed: Index)
    ensures forall key :: At(pushed, key) == At(store, key) + Copies(d, multiset(keys)[key])
  {
    pushed := store;
    for i := 0 to |keys|
      invariant forall key :: At(pushed, key) == At(store, key) + Copies(d, multiset(keys[..i])[key])
    {
      assert keys[..i + 1] == keys[..i] + [keys[i]];
      PushedOnce(store, pushed, keys[..i], keys[i], d);
      pushed := Push(pushed, keys[i], d);
    }
    assert keys[..|keys|] == keys;
  }

  lemma PushedOnceAt(store: Index, pushed: Index, keys: seq<Hash>, key: Hash, d: Descriptor, k: Hash)
    requires At(pushed, k) == At(store, k) + Copies(d, multiset(keys)[k])
    ensures At(Push(pushed, key, d), k) == At(store, k) + Copies(d, multiset(keys + [key])[k])
  {
    hide At, Copies, Push;
    var n := multiset(keys)[k];
    PushedAt(pushed, key, d, k);
    if k == key {
      CopiesNext(d, n);
      Reassociate(At(store, k), Copies(d, n), [d]);
    }
  }

  lemma PushedOnce(store: Index, pushed: Index, keys: seq<Hash>, key: Hash, d: Descriptor)
    requires forall k :: At(pushed, k) == At(store, k) + Copies(d, multiset(keys)[k])
    ensures forall k :: At(Push(pushed, key, d), k) == At(store, k) + Copies(d, multiset(keys + [key])[k])
  {
    hide At, Copies, Push;
    forall k ensures At(Push(pushed, key, d), k) == At(store, k) + Copies(d, multiset(keys + [key])[k]) {
      PushedOnceAt(store, pushed, keys, key, d, k);
    }
  }

  lemma PushedAt(store: Index, key: Hash, d: Descriptor, k: Hash)
    ensures At(Push(store, key, d), k) == if k == key then At(store, k) + [d] else At(store, k)
  {
  }

  lemma CopiesNext(d: Descriptor, n: nat)
    ensures Copies(d, n + 1) == Copies(d, n) + [d]
  {
  }

  /** `find` over all vectors, in whatever order the map has. */
  method FindById(store: Index, id: Hash) returns (found: Option<Descriptor>)
    ensures found.Some? ==> found.value.id == id && exists key <- store :: found.value in store[key]
    ensures found.None? ==> forall key <- store, d <- store[key] :: d.id != id
  {
    var todo := store.Keys;
    while todo != {}
      invariant todo <= store.Keys
      invariant forall key <- store | key !in todo :: forall d <- store[key] :: d.id != id
      decreases |todo|
    {
      var key :| key in todo;
      if i :| 0 <= i < |store[key]| && store[key][i].id == id {
        return Some(store[key][i]);
      }
      todo := todo - {key};
    }
    return None;
  }

  lemma RetainedIndexes(store: Index, kept: Index, current: map<Slot, Descriptor>, rule: Rule)
    requires Indexes(store, current)
    requires kept.Keys == store.Keys && forall key <- store :: kept[key] == Retain(store[key], rule)
    ensures Indexes(kept, Restrict(current, rule))
  {
    forall key: Hash, d: Descriptor
      ensures multiset(At(kept, key))[d] == Expected(Restrict(current, rule), key, d)
    {
      RetainCounts(At(store, key), rule, d);
    }
  }

  lemma DropEmptyIndexes(store: Index, current: map<Slot, Descriptor>)
    requires Indexes(store, current)
    ensures Indexes(DropEmpty(store), current)
  {
    forall key ensures At(DropEmpty(store), key) == At(store, key) {
    }
  }

  /** An entry of the slot map stands somewhere in the index, and only such entries do. */
  lemma IndexedIffCurrent(store: Index, current: map<Slot, Descriptor>, d: Descriptor)
    requires Indexes(store, current) && d.routingKeys != []
    ensures (exists key <- store :: d in store[key]) <==> SlotOf(d) in current && current[SlotOf(d)] == d
  {
    if SlotOf(d) in current && current[SlotOf(d)] == d {
      var key := d.routingKeys[0];
      assert multiset(At(store, key))[d] == Expected(current, key, d) == multiset(d.routingKeys)[key];
      assert d in At(store, key);
    }
    if key :| key in store && d in store[key] {
      assert multiset(At(store, key))[d] > 0;
      assert Expected(current, key, d) > 0;
    }
  }

  class DescriptorStore {
    const primitives: Primitives
    const rateLimiter: RateLimiter
    var store: Index
    var sequences: map<Slot, u64>
    var revoked: set<Hash>
    var rotations: map<seq<byte>, (Identity, u64)>
    ghost var current: map<Slot, Descriptor>

    ghost predicate Valid()
      reads this, rateLimiter
    {
      CollisionFree(primitives) && Coherent(primitives, Abstract()) && Indexes(store, current)
    }

    ghost function Abstract(): State
      reads this, rateLimiter
    {
      State(rateLimiter.timestamps, sequences, current, revoked, rotations)
    }

    constructor (primitives: Primitives)
      requires CollisionFree(primitives)
      ensures Valid() && fresh(rateLimiter) && this.primitives == primitives && Abstract() == EMPTY
    {
      this.primitives := primitives;
      rateLimiter := new RateLimiter();
      store, sequences, revoked, rotations, current := map[], map[], {}, map[], map[];
    }

    method StoreDescriptorAt(d: Descriptor, now: Clock) returns (r: Outcome<StoreError>)
      requires Valid()
      modifies this, rateLimiter
      ensures Valid()
      ensures Step(Abstract(), r) == Store(primitives, old(Abstract()), d, now)
    {
      var valid := Validate(primitives, d, now);
      if valid.Err? {
        return Err(ValidationFailed(valid.error));
      }
      StoreKeepsCoherent(primitives, Abstract(), d, now);
      var allowed := rateLimiter.CheckAndRecord(d.publisher, now);
      if !allowed {
        return Err(RateLimited(RATE_LIMIT_PER_MINUTE));
      }
      var slot := SlotOf(d);
      if slot in sequences && d.sequence < sequences[slot] {
        return Err(StaleDescriptor(d.sequence, sequences[slot]));
      }
      Install(d);
      if d.schemaHash == RevocationSchema(primitives) {
        r := ProcessRevocation(d);
        if r.Err? {
          return;
        }
      }
      if d.schemaHash == KeyRotationSchema(primitives) {
        r := ProcessKeyRotation(d);
        if r.Err? {
          return;
        }
      }
      return Ok;
    }

    /** Records the floor, removes the older version everywhere, and files the new one under its keys. */
    method Install(d: Descriptor)
      requires Valid() && Authentic(primitives, d)
      modifies this
      ensures Valid() && Abstract() == Replace(old(Abstract()), d)
      ensures forall key ::
        At(store, key) == Retain(old(At(store, key)), OtherSlot(SlotOf(d))) + Copies(d, multiset(d.routingKeys)[key])
    {
      sequences := sequences[SlotOf(d) := d.sequence];
      var others := RetainInAll(store, OtherSlot(SlotOf(d)));
      RetainedIndexes(store, others, current, OtherSlot(SlotOf(d)));
      var pushed := PushUnderEach(others, d.routingKeys, d);
      InstalledIndexes(others, pushed, current, d);
      store := pushed;
      current := current[SlotOf(d) := d];
    }

    method ProcessRevocation(d: Descriptor) returns (r: Outcome<StoreError>)
      requires Valid()
      modifies this
      ensures Valid()
      ensures Step(Abstract(), r) == Revoke(primitives, old(Abstract()), d)
    {
      hide ForeignOwner, CollisionFree, Authentic, SlotOf, Indexes;
      var parsed := primitives.revocationTarget(d.payload);
      if parsed.None? {
        return Err(ValidationFailed(MalformedPayload));
      }
      var target := parsed.value;
      var found := FindById(store, target);
      OwnersAgree(found, target, d);
      if found.Some? {
        if d.publisher != found.value.publisher {
          RemoveId(d.id);
          return Err(RevocationPublisherMismatch);
        }
        revoked := revoked + {target};
        RemoveId(target);
        DropEmptyIndexes(store, current);
        store := DropEmpty(store);
      } else {
        assert Restrict(current, OtherId(target)) == current;
      }
      revoked := revoked + {target};
      return Ok;
    }

    method ProcessKeyRotation(d: Descriptor) returns (r: Outcome<StoreError>)
      requires Valid()
      modifies this
      ensures Valid()
      ensures Step(Abstract(), r) == Rotate(primitives, old(Abstract()), d)
    {
      var parsed := primitives.rotation(d.payload);
      if parsed.None? {
        return Err(ValidationFailed(MalformedPayload));
      }
      var Rotation(oldIdentity, newIdentity, rotationSeq) := parsed.value;
      if oldIdentity in rotations {
        var (existingIdentity, existingSeq) := rotations[oldIdentity];
        if rotationSeq == existingSeq && existingIdentity != newIdentity {
          RemoveId(d.id);
          return Err(RotationForkDetected);
        }
        if rotationSeq < existingSeq {
          RemoveId(d.id);
          return Err(StaleRotation(rotationSeq, existingSeq));
        }
      }
      rotations := rotations[oldIdentity := (newIdentity, rotationSeq)];
      return Ok;
    }

    method RemoveId(id: Hash)
      requires Valid()
      modifies this`store, this`current
      ensures Valid() && current == Restrict(old(current), OtherId(id))
      ensures forall key :: At(store, key) == Retain(old(At(store, key)), OtherId(id))
    {
      var kept := RetainInAll(store, OtherId(id));
      RetainedIndexes(store, kept, current, OtherId(id));
      store := kept;
      current := Restrict(current, OtherId(id));
    }

    /** The descriptor that `find` returns speaks for every entry with that id. */
    lemma OwnersAgree(found: Option<Descriptor>, target: Hash, d: Descriptor)
      requires Valid()
      requires found.Some? ==> found.value.id == target && exists key <- store :: found.value in store[key]
      requires found.None? ==> forall key <- store, e <- store[key] :: e.id != target
      ensures ForeignOwner(current, target, d.publisher)
         <==> found.Some? && found.value.publisher != d.publisher
      ensures found.None? ==> forall s <- current :: current[s].id != target
    {
      forall s <- current | current[s].id == target
        ensures found.Some? && found.value.publisher == current[s].publisher
      {
        IndexedIffCurrent(store, current, current[s]);
        FoundIsCurrent(found.value);
        AuthenticIdsIdentify(primitives, found.value, current[s]);
      }
      if found.Some? {
        FoundIsCurrent(found.value);
      }
    }

    lemma FoundIsCurrent(d: Descriptor)
      requires Valid() && exists key <- store :: d in store[key]
      ensures SlotOf(d) in current && current[SlotOf(d)] == d
    {
      var key :| key in store && d in store[key];
      assert multiset(At(store, key))[d] > 0;
      assert Expected(current, key, d) > 0;
    }

    ghost predicate Answers(ds: seq<Descriptor>, key: Hash, filters: Option<FilterSet>, now: nat)
      reads this, rateLimiter
    {
      forall d: Descriptor :: multiset(ds)[d]
        == (if Returned(Abstract(), key, filters, now, d) then multiset(d.routingKeys)[key] else 0)
    }

    /**
     A get returns each visible descriptor of the slot map as often as it lists the key, in
     the order of the vector, which is that of acceptance.
     */
    method GetDescriptorsAt(key: Hash, filters: Option<FilterSet>, now: Clock) returns (ds: seq<Descriptor>)
      requires Valid()
      ensures Answers(ds, key, filters, now)
      ensures ds == Retain(At(store, key), Visible(revoked, filters, now))
    {
      ds := if key in store then Retain(store[key], Visible(revoked, filters, now)) else [];
      forall d: Descriptor
        ensures multiset(ds)[d]
          == (if Returned(Abstract(), key, filters, now, d) then multiset(d.routingKeys)[key] else 0)
      {
        RetainCounts(At(store, key), Visible(revoked, filters, now), d);
        assert multiset(At(store, key))[d] == Expected(current, key, d);
      }
    }

    method EvictExpiredAt(now: Clock)
      requires Valid()
      modifies this
      ensures Valid() && Abstract() == Evict(old(Abstract()), now)
      ensures forall key :: At(store, key) == Retain(old(At(store, key)), LiveAt(now))
    {
      var kept := RetainInAll(store, LiveAt(now));
      RetainedIndexes(store, kept, current, LiveAt(now));
      current := Restrict(current, LiveAt(now));
      DropEmptyIndexes(kept, current);
      store := DropEmpty(kept);
    }
  }

  lemma InstalledIndexes(others: Index, pushed: Index, current: map<Slot, Descriptor>, d: Descriptor)
    requires OwnSlots(current) && Indexes(others, Restrict(current, OtherSlot(SlotOf(d))))
    requires forall key :: At(pushed, key) == At(others, key) + Copies(d, multiset(d.routingKeys)[key])
    ensures Indexes(pushed, current[SlotOf(d) := d])
  {
    hide Copies, At;
    forall key: Hash, x: Descriptor
      ensures multiset(At(pushed, key))[x] == Expected(current[SlotOf(d) := d], key, x)
    {
      CopiesCount(d, multiset(d.routingKeys)[key], x);
      assert multiset(At(others, key))[x] == Expected(Restrict(current, OtherSlot(SlotOf(d))), key, x);
    }
  }
}

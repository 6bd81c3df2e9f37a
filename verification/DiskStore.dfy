/**
 The disk-backed store of the hub. A write transaction works on a copy of the four
 tables, which `commit` puts in place at once.
 */
module DiskStore {
  import opened Prelude
  import opened Descriptors
  import opened SlidingWindow
  import opened StoreRateLimiter
  import opened SlotMachine
  import opened RedbTables

  class RedbStorage {
    const primitives: Primitives
    var db: Tables
    var rateTimestamps: map<seq<byte>, seq<nat>>
    var skipRateLimit: bool
    ghost var slots: SlotMap

    ghost predicate Valid()
      reads this
    {
      CollisionFree(primitives) && Represents(primitives, db, slots)
    }

    ghost function Abstract(): HubState
      reads this
    {
      HubState(rateTimestamps, slots)
    }

    /** Creates the database when there is none: four empty tables. */
    constructor Create(primitives: Primitives)
      requires CollisionFree(primitives)
      ensures Valid() && this.primitives == primitives && !skipRateLimit
      ensures Abstract() == HubState(map[], map[])
    {
      EmptyRepresents(primitives);
      this.primitives := primitives;
      slots := map[];
      db, rateTimestamps, skipRateLimit := EMPTY_TABLES, map[], false;
    }

    /** Opens the tables found on disk; the rate windows are not on disk. */
    constructor Open(primitives: Primitives, onDisk: Tables, ghost slots: SlotMap)
      requires CollisionFree(primitives) && Represents(primitives, onDisk, slots)
      ensures Valid() && this.primitives == primitives && db == onDisk && !skipRateLimit
      ensures Abstract() == HubState(map[], slots)
    {
      this.primitives := primitives;
      this.slots := slots;
      db, rateTimestamps, skipRateLimit := onDisk, map[], false;
    }

    method CheckRateLimit(publisher: Identity, now: nat) returns (allowed: bool)
      modifies this`rateTimestamps
      ensures var verdict := AdmitStore(Lookup(old(rateTimestamps), IdentityBytes(publisher)), now);
              && allowed == verdict.allowed
              && rateTimestamps == old(rateTimestamps)[IdentityBytes(publisher) := verdict.entries]
    {
      var key := IdentityBytes(publisher);
      var entries := if key in rateTimestamps then rateTimestamps[key] else [];
      entries := Prune(entries, now, RATE_LIMIT_WINDOW_MICROS);
      if |entries| >= RATE_LIMIT_PER_MINUTE {
        rateTimestamps := rateTimestamps[key := entries];
        return false;
      }
      rateTimestamps := rateTimestamps[key := entries + [now]];
      return true;
    }

    method StoreDescriptorAt(d: Descriptor, now: Clock) returns (r: Outcome<StoreError>)
      requires Valid()
      modifies this
      ensures Valid() && skipRateLimit == old(skipRateLimit)
      ensures HubStep(Abstract(), r) == HubStore(primitives, old(Abstract()), d, now, skipRateLimit)
      ensures r.Err? ==> db == old(db)
    {
      hide DedupKey, Validate, AdmitStore, CollisionFree, Proper, StoresEntries, LinksKeys, Authentic;
      var valid := Validate(primitives, d, now);
      if valid.Err? {
        return Err(ValidationFailed(valid.error));
      }
      ValidIsAuthentic(primitives, d, now);
      if !skipRateLimit {
        var allowed := CheckRateLimit(d.publisher, now);
        if !allowed {
          return Err(RateLimited(RATE_LIMIT_PER_MINUTE));
        }
      }
      var dk := DedupKey(primitives, d);
      var txn := db;
      if dk in txn.sequences && d.sequence < txn.sequences[dk] {
        return Err(StaleDescriptor(d.sequence, txn.sequences[dk]));
      }
      RewriteRepresents(primitives, db, slots, d);
      txn := Replaced(txn, dk, d);
      db := txn;
      slots := slots[dk := d];
      return Ok;
    }

    /** The body of the write transaction: the old version out, the new one in. */
    method Replaced(before: Tables, dk: seq<byte>, d: Descriptor) returns (txn: Tables)
      requires dk == DedupKey(primitives, d)
      ensures txn == Rewrite(primitives, before, d)
    {
      hide DedupKey, HashBytes;
      txn := before;
      if dk in txn.dedupIndex {
        var oldId := txn.dedupIndex[dk];
        var oldKeys := if oldId in txn.descriptors then txn.descriptors[oldId].routingKeys else [];
        var links := Unlink(txn.byRoutingKey, oldKeys, oldId);
        txn := txn.(byRoutingKey := links);
        txn := txn.(descriptors := txn.descriptors - {oldId});
      }
      var id := HashBytes(d.id);
      txn := txn.(descriptors := txn.descriptors[id := d]);
      var links := Link(txn.byRoutingKey, d.routingKeys, id);
      txn := txn.(byRoutingKey := links);
      txn := txn.(dedupIndex := txn.dedupIndex[dk := id]);
      txn := txn.(sequences := txn.sequences[dk := d.sequence]);
    }

    method EvictExpiredAt(now: Clock)
      requires Valid()
      modifies this`db, this`slots
      ensures Valid() && slots == HubEvict(old(slots), now)
    {
      hide DedupKey, HashBytes, Live, CollisionFree, Represents, Holds, RemoveSlot;
      var txn := db;
      ghost var before := slots;
      RowsDistinct(primitives, txn, before);
      var expired := CollectExpired(txn.descriptors, now);
      ExpiredRowsAreSlots(primitives, txn, before, expired, now);
      ghost var left := before;
      for i := 0 to |expired|
        invariant Represents(primitives, txn, left)
        invariant left == Without(before, expired[..i])
      {
        var d := expired[i];
        WithoutNext(primitives, before, expired, i);
        RemoveSlotRepresents(primitives, txn, left, d);
        txn := RemoveRow(txn, d);
        left := left - {DedupKey(primitives, d)};
      }
      assert expired[..|expired|] == expired;
      db := txn;
      slots := left;
    }

    method RemoveRow(before: Tables, d: Descriptor) returns (txn: Tables)
      ensures txn == RemoveSlot(primitives, before, d)
    {
      hide DedupKey, HashBytes;
      var id, dk := HashBytes(d.id), DedupKey(primitives, d);
      txn := before.(descriptors := before.descriptors - {id});
      var links := Unlink(txn.byRoutingKey, d.routingKeys, id);
      txn := txn.(byRoutingKey := links);
      txn := txn.(dedupIndex := txn.dedupIndex - {dk});
      txn := txn.(sequences := txn.sequences - {dk});
    }

    /** Reads the ids linked to the key, then their rows; the order is that of the index. */
    method GetDescriptorsAt(key: Hash, filters: Option<FilterSet>, now: Clock) returns (ds: seq<Descriptor>)
      requires Valid()
      ensures forall d: Descriptor :: d in ds <==> HubReturned(primitives, slots, key, filters, now, d)
      ensures forall i, j | 0 <= i < j < |ds| :: ds[i] != ds[j]
    {
      hide Live, Matches, HubReturned, HashBytes;
      RowsDistinct(primitives, db, slots);
      var ids := set link <- db.byRoutingKey | link.0 == HashBytes(key) :: link.1;
      ds := ReadRows(db.descriptors, ids, filters, now);
      forall d: Descriptor
        ensures d in ds <==> HubReturned(primitives, slots, key, filters, now, d)
      {
        RowsAtKey(primitives, db, slots, key, ids, filters, now, d);
      }
    }

    /** All live descriptors, for gossip. */
    method AllDescriptors(now: Clock) returns (ds: seq<Descriptor>)
      requires Valid()
      ensures ListsLive(slots, now, ds)
    {
      RowsDistinct(primitives, db, slots);
      hide Live, Matches, RowRead, ListsLive, Represents;
      ds := ReadRows(db.descriptors, db.descriptors.Keys, None, now);
      RowsListLive(primitives, db, slots, now, ds);
    }
  }

  /** Every live row is a live slot, and the other way round. */
  lemma RowsAreLiveSlots(p: Primitives, t: Tables, m: SlotMap, now: nat, d: Descriptor)
    requires Represents(p, t, m)
    ensures Live(d, now) && Matches(None, d) && RowRead(t.descriptors, t.descriptors.Keys, d)
       <==> exists dk <- m :: m[dk] == d && Live(d, now)
  {
    hide DedupKey, IndexesSlots, LinksKeys, Live, Authentic;
    if dk :| dk in m && m[dk] == d {
      assert HashBytes(d.id) in t.descriptors.Keys;
    }
  }

  lemma RowsListLive(p: Primitives, t: Tables, m: SlotMap, now: nat, ds: seq<Descriptor>)
    requires Represents(p, t, m)
    requires forall d: Descriptor ::
      d in ds <==> Live(d, now) && Matches(None, d) && RowRead(t.descriptors, t.descriptors.Keys, d)
    requires forall i, j | 0 <= i < j < |ds| :: ds[i] != ds[j]
    ensures ListsLive(m, now, ds)
  {
    hide Live, Matches, RowRead, Represents;
    forall d: Descriptor ensures d in ds <==> exists dk <- m :: m[dk] == d && Live(d, now) {
      RowsAreLiveSlots(p, t, m, now, d);
    }
  }

  ghost predicate RowRead(table: map<seq<byte>, Descriptor>, ids: set<seq<byte>>, d: Descriptor) {
    exists id <- ids :: id in table && table[id] == d
  }

  method ReadRows(table: map<seq<byte>, Descriptor>, ids: set<seq<byte>>, filters: Option<FilterSet>, now: Clock)
    returns (ds: seq<Descriptor>)
    requires forall id <- table, id' <- table :: table[id] == table[id'] ==> id == id'
    ensures forall d: Descriptor :: d in ds <==> Live(d, now) && Matches(filters, d) && RowRead(table, ids, d)
    ensures forall i, j | 0 <= i < j < |ds| :: ds[i] != ds[j]
  {
    hide Live, Matches;
    ds := [];
    var unread := ids;
    while unread != {}
      invariant unread <= ids
      invariant forall d: Descriptor ::
        d in ds <==> Live(d, now) && Matches(filters, d) && RowRead(table, ids - unread, d)
      invariant forall i, j | 0 <= i < j < |ds| :: ds[i] != ds[j]
      decreases |unread|
    {
      var id :| id in unread;
      RowReadNext(table, ids - unread, id);
      assert ids - (unread - {id}) == ids - unread + {id};
      unread := unread - {id};
      if id in table && Live(table[id], now) && Matches(filters, table[id]) {
        ds := ds + [table[id]];
      }
    }
    assert ids - unread == ids;
  }

  lemma RowReadNext(table: map<seq<byte>, Descriptor>, read: set<seq<byte>>, id: seq<byte>)
    requires id !in read
    requires forall id <- table, id' <- table :: table[id] == table[id'] ==> id == id'
    ensures forall d: Descriptor ::
      RowRead(table, read + {id}, d) <==> RowRead(table, read, d) || (id in table && table[id] == d)
    ensures id in table ==> !RowRead(table, read, table[id])
  {
    forall d: Descriptor
      ensures RowRead(table, read + {id}, d) <==> RowRead(table, read, d) || (id in table && table[id] == d)
    {
      if RowRead(table, read, d) {
        var id' :| id' in read && id' in table && table[id'] == d;
        assert id' in read + {id};
      }
      if id in table && table[id] == d {
        assert id in read + {id};
      }
    }
  }

  lemma RowsDistinct(p: Primitives, t: Tables, m: SlotMap)
    requires Represents(p, t, m)
    ensures forall id <- t.descriptors, id' <- t.descriptors ::
      t.descriptors[id] == t.descriptors[id'] ==> id == id'
  {
  }

  lemma RowsAtKey(
    p: Primitives, t: Tables, m: SlotMap, key: Hash, ids: set<seq<byte>>,
    filters: Option<FilterSet>, now: nat, d: Descriptor)
    requires Represents(p, t, m)
    requires ids == set link <- t.byRoutingKey | link.0 == HashBytes(key) :: link.1
    ensures Live(d, now) && Matches(filters, d) && RowRead(t.descriptors, ids, d)
       <==> HubReturned(p, m, key, filters, now, d)
  {
    hide DedupKey, IndexesSlots, LinksKeys, Live, Matches;
    if RowRead(t.descriptors, ids, d) {
      var id :| id in ids && id in t.descriptors && t.descriptors[id] == d;
      LinkedExactly(p, t, m, key, id);
    }
    if Holds(p, m, d) && key in d.routingKeys {
      LinkedExactly(p, t, m, key, HashBytes(d.id));
      assert (HashBytes(key), HashBytes(d.id)) in t.byRoutingKey;
      assert HashBytes(d.id) in ids;
    }
  }

  /** The slots whose descriptor is not in `gone`. */
  ghost function Without(slots: SlotMap, gone: seq<Descriptor>): SlotMap {
    map dk | dk in slots && slots[dk] !in gone :: slots[dk]
  }

  lemma ExpiredRowsAreSlots(p: Primitives, t: Tables, slots: SlotMap, expired: seq<Descriptor>, now: nat)
    requires Represents(p, t, slots)
    requires forall d <- expired :: exists id <- t.descriptors :: t.descriptors[id] == d && !Live(d, now)
    requires forall id <- t.descriptors :: !Live(t.descriptors[id], now) ==> t.descriptors[id] in expired
    ensures Proper(p, slots) && forall d <- expired :: Holds(p, slots, d)
    ensures Without(slots, []) == slots && Without(slots, expired) == HubEvict(slots, now)
  {
    hide DedupKey, HashBytes, Live, LinksKeys, IndexesSlots, Authentic;
    forall d <- expired ensures Holds(p, slots, d) && !Live(d, now) {
      var id :| id in t.descriptors && t.descriptors[id] == d && !Live(d, now);
    }
    forall dk <- slots ensures !Live(slots[dk], now) <==> slots[dk] in expired {
    }
  }

  lemma WithoutNext(p: Primitives, slots: SlotMap, expired: seq<Descriptor>, i: nat)
    requires Proper(p, slots) && i < |expired| && Holds(p, slots, expired[i]) && expired[i] !in expired[..i]
    ensures Holds(p, Without(slots, expired[..i]), expired[i])
    ensures Without(slots, expired[..i + 1]) == Without(slots, expired[..i]) - {DedupKey(p, expired[i])}
  {
    hide DedupKey, Authentic;
    assert expired[..i + 1] == expired[..i] + [expired[i]];
  }

  method Unlink(links: set<(seq<byte>, seq<byte>)>, keys: seq<Hash>, id: seq<byte>)
    returns (left: set<(seq<byte>, seq<byte>)>)
    ensures left == links - Pairs(keys, id)
  {
    left := links;
    for i := 0 to |keys|
      invariant left == links - Pairs(keys[..i], id)
    {
      assert keys[..i + 1] == keys[..i] + [keys[i]];
      left := left - {(HashBytes(keys[i]), id)};
    }
    assert keys[..|keys|] == keys;
  }

  method Link(links: set<(seq<byte>, seq<byte>)>, keys: seq<Hash>, id: seq<byte>)
    returns (more: set<(seq<byte>, seq<byte>)>)
    ensures more == links + Pairs(keys, id)
  {
    more := links;
    for i := 0 to |keys|
      invariant more == links + Pairs(keys[..i], id)
    {
      assert keys[..i + 1] == keys[..i] + [keys[i]];
      more := more + {(HashBytes(keys[i]), id)};
    }
    assert keys[..|keys|] == keys;
  }

  /** One pass over the descriptor table, which is read in some order. */
  method CollectExpired(table: map<seq<byte>, Descriptor>, now: Clock) returns (expired: seq<Descriptor>)
    requires forall id <- table, id' <- table :: table[id] == table[id'] ==> id == id'
    ensures forall d <- expired :: exists id <- table :: table[id] == d && !Live(d, now)
    ensures forall id <- table :: !Live(table[id], now) ==> table[id] in expired
    ensures forall i, j | 0 <= i < j < |expired| :: expired[i] != expired[j]
  {
    hide Live;
    expired := [];
    var unread := table.Keys;
    while unread != {}
      invariant unread <= table.Keys
      invariant forall d <- expired :: exists id <- table :: id !in unread && table[id] == d && !Live(d, now)
      invariant forall id <- table :: id !in unread && !Live(table[id], now) ==> table[id] in expired
      invariant forall i, j | 0 <= i < j < |expired| :: expired[i] != expired[j]
      decreases |unread|
    {
      var id :| id in unread;
      unread := unread - {id};
      if !Live(table[id], now) {
        expired := expired + [table[id]];
      }
    }
  }
}

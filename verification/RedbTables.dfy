/**
 The four tables of the disk-backed store and the slot map they stand for. A table
 key is a byte string; stored CBOR is represented by the descriptor it decodes to.
 */
module RedbTables {
  import opened Prelude
  import opened Descriptors
  import opened SlidingWindow
  import opened StoreRateLimiter
  import opened SlotMachine

  datatype Tables = Tables(
    descriptors: map<seq<byte>, Descriptor>,
    byRoutingKey: set<(seq<byte>, seq<byte>)>,
    dedupIndex: map<seq<byte>, seq<byte>>,
    sequences: map<seq<byte>, u64>)

  const EMPTY_TABLES: Tables := Tables(map[], {}, map[], map[])

  /** The concatenation under the dedup hash; its parts carry no length. */
  function SlotBytes(s: Slot): seq<byte> {
    IdentityBytes(s.publisher) + HashBytes(s.schemaHash) + s.topic
  }

  function DedupKey(p: Primitives, d: Envelope): seq<byte> {
    p.blake3(SlotBytes(SlotOf(d)))
  }

  /** The current descriptor of each slot, by dedup key. */
  type SlotMap = map<seq<byte>, Descriptor>

  ghost predicate Proper(p: Primitives, m: SlotMap) {
    forall dk <- m :: DedupKey(p, m[dk]) == dk && Authentic(p, m[dk])
  }

  /** `d` is the current descriptor of its slot. */
  predicate Holds(p: Primitives, m: SlotMap, d: Descriptor) {
    DedupKey(p, d) in m && m[DedupKey(p, d)] == d
  }

  function Pairs(keys: seq<Hash>, id: seq<byte>): set<(seq<byte>, seq<byte>)> {
    set key | key in keys :: (HashBytes(key), id)
  }

  /** `pair` links a routing key of some current descriptor to that descriptor. */
  ghost predicate Linked(m: SlotMap, pair: (seq<byte>, seq<byte>)) {
    exists dk <- m :: pair in Pairs(m[dk].routingKeys, HashBytes(m[dk].id))
  }

  /** The dedup index and the sequences have one row per slot. */
  ghost predicate IndexesSlots(t: Tables, m: SlotMap) {
    && t.dedupIndex.Keys == m.Keys
    && t.sequences.Keys == m.Keys
    && forall dk <- m :: t.dedupIndex[dk] == HashBytes(m[dk].id) && t.sequences[dk] == m[dk].sequence
  }

  /** The descriptor table holds the current descriptors under their ids, and nothing else. */
  ghost predicate StoresEntries(p: Primitives, t: Tables, m: SlotMap) {
    && (forall dk <- m ::
          HashBytes(m[dk].id) in t.descriptors && t.descriptors[HashBytes(m[dk].id)] == m[dk])
    && (forall id <- t.descriptors ::
          HashBytes(t.descriptors[id].id) == id && Holds(p, m, t.descriptors[id]))
  }

  /** The routing-key index holds exactly the links of the current descriptors. */
  ghost predicate LinksKeys(t: Tables, m: SlotMap) {
    forall pair :: pair in t.byRoutingKey <==> Linked(m, pair)
  }

  /** The tables say exactly what the slot map says. */
  ghost predicate Represents(p: Primitives, t: Tables, m: SlotMap) {
    Proper(p, m) && IndexesSlots(t, m) && StoresEntries(p, t, m) && LinksKeys(t, m)
  }

  /** Two slots never hold the same id. */
  lemma IdsDistinct(p: Primitives, m: SlotMap, dk: seq<byte>, dk': seq<byte>)
    requires CollisionFree(p) && Proper(p, m) && dk in m && dk' in m
    requires HashBytes(m[dk].id) == HashBytes(m[dk'].id)
    ensures dk == dk'
  {
    HashBytesInjective(m[dk].id, m[dk'].id);
    AuthenticIdsIdentify(p, m[dk], m[dk']);
  }

  // ----- what the tables say about each other

  /** The dedup index is a bijection onto the descriptor table, and the other two tables follow it. */
  lemma TablesAgree(p: Primitives, t: Tables, m: SlotMap)
    requires CollisionFree(p) && Represents(p, t, m)
    ensures forall dk <- t.dedupIndex :: t.dedupIndex[dk] in t.descriptors
    ensures forall dk <- t.dedupIndex, dk' <- t.dedupIndex ::
      t.dedupIndex[dk] == t.dedupIndex[dk'] ==> dk == dk'
    ensures forall id <- t.descriptors ::
      var dk := DedupKey(p, t.descriptors[id]); dk in t.dedupIndex && t.dedupIndex[dk] == id
    ensures t.sequences.Keys == t.dedupIndex.Keys
    ensures forall dk <- t.dedupIndex :: t.sequences[dk] == t.descriptors[t.dedupIndex[dk]].sequence
    ensures forall key, id :: ((HashBytes(key), id) in t.byRoutingKey
      <==> id in t.descriptors && key in t.descriptors[id].routingKeys)
  {
    hide CollisionFree, LinksKeys, HashBytes, Authentic;
    forall dk <- t.dedupIndex, dk' <- t.dedupIndex | t.dedupIndex[dk] == t.dedupIndex[dk']
      ensures dk == dk'
    {
      IdsDistinct(p, m, dk, dk');
    }
    forall key, id
      ensures (HashBytes(key), id) in t.byRoutingKey
        <==> id in t.descriptors && key in t.descriptors[id].routingKeys
    {
      LinkedExactly(p, t, m, key, id);
    }
  }

  lemma LinkedExactly(p: Primitives, t: Tables, m: SlotMap, key: Hash, id: seq<byte>)
    requires Represents(p, t, m)
    ensures (HashBytes(key), id) in t.byRoutingKey
      <==> id in t.descriptors && key in t.descriptors[id].routingKeys
  {
    var pair := (HashBytes(key), id);
    if pair in t.byRoutingKey {
      assert Linked(m, pair);
      var dk :| dk in m && pair in Pairs(m[dk].routingKeys, HashBytes(m[dk].id));
      var key' :| key' in m[dk].routingKeys && pair == (HashBytes(key'), HashBytes(m[dk].id));
      HashBytesInjective(key, key');
    }
    if id in t.descriptors && key in t.descriptors[id].routingKeys {
      var d := t.descriptors[id];
      assert Holds(p, m, d);
      assert pair in Pairs(m[DedupKey(p, d)].routingKeys, HashBytes(m[DedupKey(p, d)].id));
      assert Linked(m, pair);
    }
  }

  /** The slot map leaves the tables no freedom. */
  lemma TablesDetermined(p: Primitives, t: Tables, t': Tables, m: SlotMap)
    requires Represents(p, t, m) && Represents(p, t', m)
    ensures t == t'
  {
    hide Proper, LinksKeys, IndexesSlots, StoresEntries;
    EntriesDetermined(p, t, t', m);
    LinksDetermined(t, t', m);
    IndexDetermined(t, t', m);
  }

  lemma EntriesDetermined(p: Primitives, t: Tables, t': Tables, m: SlotMap)
    requires StoresEntries(p, t, m) && StoresEntries(p, t', m)
    ensures t.descriptors == t'.descriptors
  {
    hide DedupKey, HashBytes;
    assert forall id :: id in t.descriptors <==> id in t'.descriptors;
  }

  lemma LinksDetermined(t: Tables, t': Tables, m: SlotMap)
    requires LinksKeys(t, m) && LinksKeys(t', m)
    ensures t.byRoutingKey == t'.byRoutingKey
  {
    hide Linked;
  }

  lemma IndexDetermined(t: Tables, t': Tables, m: SlotMap)
    requires IndexesSlots(t, m) && IndexesSlots(t', m)
    ensures t.dedupIndex == t'.dedupIndex && t.sequences == t'.sequences
  {
    hide HashBytes;
  }

  // ----- one transaction

  /** What the write transaction of a store does to the tables, given the old version's keys. */
  function Rewrite(p: Primitives, t: Tables, d: Descriptor): Tables {
    var dk, id := DedupKey(p, d), HashBytes(d.id);
    var cleared :=
      if dk in t.dedupIndex then RemoveVersion(t, t.dedupIndex[dk]) else t;
    Tables(
      cleared.descriptors[id := d],
      cleared.byRoutingKey + Pairs(d.routingKeys, id),
      t.dedupIndex[dk := id],
      t.sequences[dk := d.sequence])
  }

  function KeysOf(t: Tables, id: seq<byte>): seq<Hash> {
    if id in t.descriptors then t.descriptors[id].routingKeys else []
  }

  /** The old version leaves the descriptor table and the routing-key index. */
  function RemoveVersion(t: Tables, id: seq<byte>): Tables {
    t.(descriptors := t.descriptors - {id}, byRoutingKey := t.byRoutingKey - Pairs(KeysOf(t, id), id))
  }

  /** An evicted descriptor leaves all four tables. */
  function RemoveSlot(p: Primitives, t: Tables, d: Descriptor): Tables {
    var dk, id := DedupKey(p, d), HashBytes(d.id);
    Tables(
      t.descriptors - {id},
      t.byRoutingKey - Pairs(d.routingKeys, id),
      t.dedupIndex - {dk},
      t.sequences - {dk})
  }

  lemma RemoveSlotRepresents(p: Primitives, t: Tables, m: SlotMap, d: Descriptor)
    requires CollisionFree(p) && Represents(p, t, m) && Holds(p, m, d)
    ensures Represents(p, RemoveSlot(p, t, d), m - {DedupKey(p, d)})
  {
    hide CollisionFree, StoresEntries, LinksKeys, DedupKey, HashBytes, Authentic;
    OthersHaveOtherIds(p, m, DedupKey(p, d));
    RemoveSlotEntries(p, t, m, d);
    RemoveSlotLinks(p, t, m, d);
  }

  lemma RemoveSlotEntries(p: Primitives, t: Tables, m: SlotMap, d: Descriptor)
    requires StoresEntries(p, t, m) && Holds(p, m, d)
    requires forall dk <- m :: HashBytes(m[dk].id) == HashBytes(d.id) ==> dk == DedupKey(p, d)
    ensures StoresEntries(p, RemoveSlot(p, t, d), m - {DedupKey(p, d)})
  {
    hide DedupKey, HashBytes, Pairs;
  }

  lemma RemoveSlotLinks(p: Primitives, t: Tables, m: SlotMap, d: Descriptor)
    requires LinksKeys(t, m) && Holds(p, m, d)
    requires forall dk <- m :: HashBytes(m[dk].id) == HashBytes(d.id) ==> dk == DedupKey(p, d)
    ensures LinksKeys(RemoveSlot(p, t, d), m - {DedupKey(p, d)})
  {
    hide DedupKey, HashBytes, Pairs, Linked;
    forall pair { LinkedWithout(m, DedupKey(p, d), pair); }
  }

  lemma OthersHaveOtherIds(p: Primitives, m: SlotMap, dk: seq<byte>)
    requires CollisionFree(p) && Proper(p, m) && dk in m
    ensures forall dk' <- m :: HashBytes(m[dk'].id) == HashBytes(m[dk].id) ==> dk' == dk
  {
    forall dk' <- m | HashBytes(m[dk'].id) == HashBytes(m[dk].id) ensures dk' == dk {
      IdsDistinct(p, m, dk, dk');
    }
  }

  /** Taking a slot away takes away exactly the pairs of its id. */
  lemma LinkedWithout(m: SlotMap, dk: seq<byte>, pair: (seq<byte>, seq<byte>))
    requires dk in m && forall dk' <- m :: HashBytes(m[dk'].id) == HashBytes(m[dk].id) ==> dk' == dk
    ensures Linked(m - {dk}, pair)
       <==> Linked(m, pair) && pair !in Pairs(m[dk].routingKeys, HashBytes(m[dk].id))
  {
    var m' := m - {dk};
    if Linked(m', pair) {
      var dk' :| dk' in m' && pair in Pairs(m'[dk'].routingKeys, HashBytes(m'[dk'].id));
      assert dk' in m;
    }
    if Linked(m, pair) && pair !in Pairs(m[dk].routingKeys, HashBytes(m[dk].id)) {
      var dk' :| dk' in m && pair in Pairs(m[dk'].routingKeys, HashBytes(m[dk'].id));
      assert dk' in m';
    }
  }

  function AddSlot(p: Primitives, t: Tables, d: Descriptor): Tables {
    var dk, id := DedupKey(p, d), HashBytes(d.id);
    Tables(
      t.descriptors[id := d],
      t.byRoutingKey + Pairs(d.routingKeys, id),
      t.dedupIndex[dk := id],
      t.sequences[dk := d.sequence])
  }

  lemma AddSlotRepresents(p: Primitives, t: Tables, m: SlotMap, d: Descriptor)
    requires CollisionFree(p) && Represents(p, t, m) && Authentic(p, d) && DedupKey(p, d) !in m
    ensures Represents(p, AddSlot(p, t, d), m[DedupKey(p, d) := d])
  {
    hide CollisionFree, StoresEntries, LinksKeys, DedupKey, HashBytes, Authentic;
    assert forall dk <- m :: HashBytes(m[dk].id) != HashBytes(d.id) by {
      forall dk <- m ensures HashBytes(m[dk].id) != HashBytes(d.id) {
        if HashBytes(m[dk].id) == HashBytes(d.id) {
          SameIdSameSlot(p, m[dk], d);
        }
      }
    }
    AddSlotEntries(p, t, m, d);
    AddSlotLinks(p, t, m, d);
  }

  lemma SameIdSameSlot(p: Primitives, d: Descriptor, e: Descriptor)
    requires CollisionFree(p) && Authentic(p, d) && Authentic(p, e) && HashBytes(d.id) == HashBytes(e.id)
    ensures DedupKey(p, d) == DedupKey(p, e)
  {
    HashBytesInjective(d.id, e.id);
    AuthenticIdsIdentify(p, d, e);
  }

  lemma AddSlotEntries(p: Primitives, t: Tables, m: SlotMap, d: Descriptor)
    requires StoresEntries(p, t, m) && DedupKey(p, d) !in m
    requires forall dk <- m :: HashBytes(m[dk].id) != HashBytes(d.id)
    ensures StoresEntries(p, AddSlot(p, t, d), m[DedupKey(p, d) := d])
  {
    hide DedupKey, HashBytes, Pairs;
  }

  lemma AddSlotLinks(p: Primitives, t: Tables, m: SlotMap, d: Descriptor)
    requires LinksKeys(t, m) && DedupKey(p, d) !in m
    ensures LinksKeys(AddSlot(p, t, d), m[DedupKey(p, d) := d])
  {
    hide DedupKey, HashBytes, Pairs;
    var dk := DedupKey(p, d);
    var m' := m[dk := d];
    forall pair
      ensures Linked(m', pair) <==> Linked(m, pair) || pair in Pairs(d.routingKeys, HashBytes(d.id))
    {
      if Linked(m, pair) {
        var dk' :| dk' in m && pair in Pairs(m[dk'].routingKeys, HashBytes(m[dk'].id));
        assert dk' in m' && m'[dk'] == m[dk'];
      }
      if pair in Pairs(d.routingKeys, HashBytes(d.id)) {
        assert dk in m' && m'[dk] == d;
      }
    }
  }

  lemma RewriteIsRemoveThenAdd(p: Primitives, t: Tables, older: Descriptor, d: Descriptor)
    requires DedupKey(p, older) == DedupKey(p, d)
    requires DedupKey(p, d) in t.dedupIndex && t.dedupIndex[DedupKey(p, d)] == HashBytes(older.id)
    requires HashBytes(older.id) in t.descriptors && t.descriptors[HashBytes(older.id)] == older
    ensures Rewrite(p, t, d) == AddSlot(p, RemoveSlot(p, t, older), d)
  {
    hide DedupKey, HashBytes, Pairs;
    var dk := DedupKey(p, d);
    assert (t.dedupIndex - {dk})[dk := HashBytes(d.id)] == t.dedupIndex[dk := HashBytes(d.id)];
    assert (t.sequences - {dk})[dk := d.sequence] == t.sequences[dk := d.sequence];
  }

  lemma HeldRow(p: Primitives, t: Tables, m: SlotMap, dk: seq<byte>)
    requires Represents(p, t, m) && dk in m
    ensures DedupKey(p, m[dk]) == dk && Holds(p, m, m[dk])
    ensures dk in t.dedupIndex && t.dedupIndex[dk] == HashBytes(m[dk].id)
    ensures HashBytes(m[dk].id) in t.descriptors && t.descriptors[HashBytes(m[dk].id)] == m[dk]
  {
    hide LinksKeys, DedupKey, HashBytes, Authentic;
  }

  lemma RewriteOfHeldSlot(p: Primitives, t: Tables, m: SlotMap, d: Descriptor)
    requires CollisionFree(p) && Represents(p, t, m) && Authentic(p, d) && DedupKey(p, d) in m
    ensures Represents(p, Rewrite(p, t, d), m[DedupKey(p, d) := d])
  {
    hide CollisionFree, Represents, DedupKey, HashBytes, Authentic, Rewrite, AddSlot, RemoveSlot, Holds;
    var dk := DedupKey(p, d);
    var older := m[dk];
    HeldRow(p, t, m, dk);
    RewriteIsRemoveThenAdd(p, t, older, d);
    RemoveSlotRepresents(p, t, m, older);
    AddSlotRepresents(p, RemoveSlot(p, t, older), m - {dk}, d);
    assert (m - {dk})[dk := d] == m[dk := d];
  }

  /** A committed store has replaced the slot's entry, and nothing else. */
  lemma RewriteRepresents(p: Primitives, t: Tables, m: SlotMap, d: Descriptor)
    requires CollisionFree(p) && Represents(p, t, m) && Authentic(p, d)
    ensures Represents(p, Rewrite(p, t, d), m[DedupKey(p, d) := d])
  {
    hide CollisionFree, LinksKeys, DedupKey, HashBytes, Authentic, Pairs, Rewrite, AddSlot, RemoveSlot;
    if DedupKey(p, d) in m {
      RewriteOfHeldSlot(p, t, m, d);
    } else {
      AddSlotRepresents(p, t, m, d);
      RewriteOfNewSlot(p, t, d);
    }
    hide IndexesSlots, StoresEntries, Proper;
  }

  lemma RewriteOfNewSlot(p: Primitives, t: Tables, d: Descriptor)
    requires DedupKey(p, d) !in t.dedupIndex
    ensures Rewrite(p, t, d) == AddSlot(p, t, d)
  {
    hide DedupKey, HashBytes, Pairs;
  }

  lemma EmptyRepresents(p: Primitives)
    ensures Represents(p, EMPTY_TABLES, map[])
  {
  }

  // ----- the operations of the hub's store on the slot map

  datatype HubState = HubState(windows: map<seq<byte>, seq<nat>>, slots: SlotMap)

  datatype HubStep = HubStep(state: HubState, outcome: Outcome<StoreError>)

  predicate Stale(p: Primitives, m: SlotMap, d: Descriptor) {
    DedupKey(p, d) in m && d.sequence < m[DedupKey(p, d)].sequence
  }

  function HubStore(p: Primitives, st: HubState, d: Descriptor, now: Clock, skipRateLimit: bool): HubStep {
    var valid := Validate(p, d, now);
    if valid.Err? then HubStep(st, Err(ValidationFailed(valid.error)))
    else
      var who := IdentityBytes(d.publisher);
      var verdict := AdmitStore(Lookup(st.windows, who), now);
      var charged := if skipRateLimit then st else st.(windows := st.windows[who := verdict.entries]);
      if !skipRateLimit && !verdict.allowed then HubStep(charged, Err(RateLimited(RATE_LIMIT_PER_MINUTE)))
      else if Stale(p, st.slots, d) then
        HubStep(charged, Err(StaleDescriptor(d.sequence, st.slots[DedupKey(p, d)].sequence)))
      else
        HubStep(charged.(slots := st.slots[DedupKey(p, d) := d]), Ok)
  }

  /** Eviction takes the whole slot away, and with it the sequence floor. */
  function HubEvict(m: SlotMap, now: nat): SlotMap {
    map dk | dk in m && Live(m[dk], now) :: m[dk]
  }

  predicate HubReturned(p: Primitives, m: SlotMap, key: Hash, filters: Option<FilterSet>, now: nat, d: Descriptor) {
    Holds(p, m, d) && key in d.routingKeys && Live(d, now) && Matches(filters, d)
  }

  /** The filters of the disk store are those of the memory store. */
  lemma HubFilteredExactly(
    p: Primitives, m: SlotMap, key: Hash, schema: Option<Hash>, minimum: Option<u64>, publisher: Option<Identity>,
    now: nat, d: Descriptor)
    ensures HubReturned(p, m, key, Some(FilterSet(schema, minimum, publisher)), now, d) <==>
      && HubReturned(p, m, key, None, now, d)
      && (schema.None? || schema == Some(d.schemaHash))
      && (minimum.None? || minimum.value <= d.timestamp)
      && (publisher.None? || publisher == Some(d.publisher))
  {
    hide Live, DedupKey;
  }

  /** `ds` lists, each once, the live descriptors of `m`, as `all_descriptors` collects them. */
  ghost predicate ListsLive(m: SlotMap, now: nat, ds: seq<Descriptor>) {
    && (forall d: Descriptor :: d in ds <==> exists dk <- m :: m[dk] == d && Live(d, now))
    && (forall i, j | 0 <= i < j < |ds| :: ds[i] != ds[j])
  }

  /**
   A store succeeds exactly when its checks pass. Then the slot answers with the new
   descriptor alone and every other slot answers as before; otherwise nothing changes.
   Revocations and rotations are stored like any other descriptor.
   */
  lemma HubStoreIsExact(
    p: Primitives, st: HubState, d: Descriptor, now: Clock, skipRateLimit: bool,
    x: Descriptor, key: Hash, filters: Option<FilterSet>, t: nat)
    ensures var step := HubStore(p, st, d, now, skipRateLimit);
            && (step.outcome.Ok? <==>
                  && Validate(p, d, now).Ok?
                  && (skipRateLimit || AdmitStore(Lookup(st.windows, IdentityBytes(d.publisher)), now).allowed)
                  && !Stale(p, st.slots, d))
            && (HubReturned(p, step.state.slots, key, filters, t, x) <==>
                  if step.outcome.Ok? && DedupKey(p, x) == DedupKey(p, d) then
                    x == d && key in d.routingKeys && Live(d, t) && Matches(filters, d)
                  else HubReturned(p, st.slots, key, filters, t, x))
  {
    hide Validate, AdmitStore, Live, Matches, DedupKey;
  }

  /** What a refusal says is so: the first check that failed, with the values that were compared. */
  lemma HubRefusalsSayWhy(p: Primitives, st: HubState, d: Descriptor, now: Clock, skipRateLimit: bool)
    requires HubStore(p, st, d, now, skipRateLimit).outcome.Err?
    ensures var valid, dk := Validate(p, d, now), DedupKey(p, d);
            var recorded := skipRateLimit || AdmitStore(Lookup(st.windows, IdentityBytes(d.publisher)), now).allowed;
            match HubStore(p, st, d, now, skipRateLimit).outcome.error
            case ValidationFailed(reason) => valid == Err(reason)
            case RateLimited(limit) => valid.Ok? && !recorded && limit == 10
            case StaleDescriptor(received, current) =>
              && valid.Ok? && recorded && received == d.sequence && received < current
              && dk in st.slots && st.slots[dk].sequence == current
            case _ => false
  {
    hide Validate, AdmitStore, DedupKey;
  }

  /** Evicting at `t` changes no get at `t` or later. */
  lemma HubEvictionInvisible(
    p: Primitives, m: SlotMap, t: nat, t': nat, key: Hash, filters: Option<FilterSet>, d: Descriptor)
    requires t <= t'
    ensures HubReturned(p, HubEvict(m, t), key, filters, t', d) == HubReturned(p, m, key, filters, t', d)
  {
    if !Live(d, t) {
      ExpiryIsFinal(d, t, t');
    }
  }

  lemma EvictKeepsProper(p: Primitives, m: SlotMap, now: nat)
    requires Proper(p, m)
    ensures Proper(p, HubEvict(m, now))
  {
  }
}

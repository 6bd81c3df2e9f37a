# Verified model of the mesh protocol core

This project models, in Dafny 4.11, the parts of the mesh protocol implementation that
decide what a node stores, what it answers, where it replicates and whom it asks, and
proves what these parts promise. `dafny verify dfyconfig.toml` checks all of it.

## What is modelled

- **Descriptors** (`Cbor.dfy`, `Descriptors.dfy`): the canonical encoding under the content
  hash, with a decoder that inverts it; validation; the lifetime arithmetic on 64-bit clocks.
- **The in-memory store** (`SlotMachine.dfy`, `MemoryStore.dfy`): `SlotMachine` is the
  reference, a map from slot (publisher, schema, topic) to floor and current descriptor, with
  the revoked set and the rotation map. `MemoryStore.DescriptorStore` is the code's object, a
  vector of descriptors per routing key updated in place; each method is proved to be the step
  of the reference, and the promises over whole runs are proved of the reference.
- **The disk store** (`RedbTables.dfy`, `DiskStore.dfy`): four tables which at every moment
  say exactly what one slot map says. `DiskStore.RedbStorage` performs the transactions.
- **The two stores compared** (`StoreAgreement.dfy`) and **the cache in front of the disk
  store** (`CacheLayer.dfy`).
- **Gossip** (`Gossip.dfy`, `GossipRounds.dfy`): deliveries between hubs, their order, and the code's
  round; (`HubRounds.dfy`, `RoundAgreement.dfy`, `RoundSettling.dfy`): networks of hubs that gossip in
  rounds of fifty, when they agree and when they come to rest.
- **Kademlia** (`XorMetric.dfy`, `Distance.dfy`, `NodeSort.dfy`, `KBuckets.dfy`,
  `BucketGeometry.dfy`, `DhtLookup.dfy`, `DhtReplication.dfy`): the metric on 256-bit ids, the
  stable sort by distance, the buckets with their ping challenge, the iterative lookup and the
  iterative store.
- **Rate limiting** (`SlidingWindow.dfy`, `StoreRateLimiter.dfy`, `HubRateLimiting.dfy`) and **hierarchical routing keys**
  (`RoutingKeys.dfy`).

How the world outside is represented:

- BLAKE3 is a function on byte strings, assumed injective where a theorem says `CollisionFree`.
  Ed25519 verification is an arbitrary predicate. Parsing a revocation or rotation payload is
  an arbitrary partial function.
- Time is a parameter. A `Clock` is a 64-bit value at most `MAX_CLOCK`, the last one at which
  no sum of the code can overflow (`Descriptors.ClockRangeExact`).
- The tables of redb are maps and a set of pairs; a transaction takes effect as a whole at its
  commit. The moka cache is a map that may lose any entries at any moment.
- The transport is an arbitrary function from the number of the request and the address to a
  decoded reply or none, so the same node may answer differently each time.
- `sort_by` is the stable sort, which is characterised up to uniqueness. Maps and sets are
  traversed in an arbitrary order.
- Each operation is one atomic step, as the code runs each under one mutex.
- Sequences and clocks are `u64`, ttls `u32`, bytes `0..255`, all as integer subset types;
  vector lengths fit 64 bits.

## Where the code is followed against its documentation

- An equal sequence with a different id replaces the stored version (PROTOCOL.md:231-232 rejects it):
  `SlotMachine.StoreIsExact`, `RedbTables.HubStoreIsExact`. What this does to gossip is made exact.
  The order of deliveries is irrelevant exactly when each slot has one descriptor of its highest
  sequence (`Gossip.DeliveryOrderExactly`). Rounds are sure to come to rest exactly when no two
  published descriptors share slot and sequence (`RoundSettling.RoundsSettleExactly`): two that do can
  displace each other in a third hub forever (`RoundSettling.ConflictNeverRests`).
- A gossip round is said to collect ALL descriptors, so that every hub converges to the same catalog
  (mesh-hub/src/peering.rs:653-657), but sends the first fifty of a fixed listing. Among two or more
  hubs, every run can be brought to agreement by rounds exactly when what was published has at most
  fifty slots (`RoundAgreement.CanAlwaysAgreeExactly`), and exactly then does every network that no
  round changes agree (`RoundAgreement.RestAgreesExactly`). One round by itself:
  `Gossip.RoundReplicatesExactly`, `Gossip.RoundCoversExactly`.
- Of two conflicting rotations the first is kept (PROTOCOL.md:761-763 rejects both), a repetition of
  the recorded rotation is accepted (PROTOCOL.md:757-759 rejects it), and the publisher of a rotation
  is compared with no one: `SlotMachine.RotationAcceptedExactly`.
- A revocation of an id that is not in the store is accepted from anyone:
  `SlotMachine.RevocationAcceptedExactly` gives the exact condition.
- A malformed revocation or rotation is refused and yet stays stored; after a foreign revocation, a
  fork or a stale rotation the slot is empty, its previous version included: `SlotMachine.RefusedIsExact`.
- The disk store's eviction forgets sequence floors, and it does not look into the payloads of
  revocations and rotations. Over every run of stores of any kind and evictions the outcomes of the
  two stores are the same exactly when no store falls below a forgotten floor and none is refused for
  its payload, and then they answer every get alike, but for what was revoked:
  `StoreAgreement.StoresAgreeExactly`. For runs without revocations and rotations the memory store
  alone tells which floors are forgotten: `StoreAgreement.OrdinaryStoresAgreeExactly`.
- The dedup key of the disk store hashes a concatenation without lengths. Two slots share it when
  the border between digest and topic is shifted: `StoreAgreement.ShiftedSlotCollides`; with
  digests of one length they never do: `StoreAgreement.SlotBytesInjective`.
- The cache drops only the routing keys of the new version. It stays in agreement, after one store
  and throughout a run, exactly when no new version drops a cached key of the live version it
  replaces: `CacheLayer.AgreesAfterStoreExactly`, `CacheLayer.CacheAgreesExactly`.
- Bucket 255 is the farthest one, despite mesh-dht/src/distance.rs:44-45: `BucketGeometry.OwnIdOrder`.
- The lookup gives up after a round that named no node, even when candidates are left to ask;
  `DhtLookup.Exhausted` lists the reasons for stopping.
- Resolving a ping challenge with a candidate that is already in the bucket would duplicate it:
  `KBuckets.ResolveKeepsInvExactly` gives the exact condition, and `KBuckets.ChallengeKeepsInv`
  shows that it always holds for what `add_node` returned.
- The stores' limiter reads a wall clock, which may go back. Its pruning is right for every run over a
  clock exactly when the clock never goes back from outside the window of an earlier reading to
  inside: `StoreRateLimiter.StoreLimiterExactly`; `StoreRateLimiter.BackwardClockDiffers` is a run of
  the other kind.
- The hub's cleanup doubles the window in 64 bits. It is harmless exactly when the product does not
  wrap around: `HubRateLimiting.CleanupHarmlessExactly`.
- `HubRateLimiter::check` charges the address before it asks for the identity, and does not take
  the charge back: `HubRateLimiting.HubRateLimiter.Check`.

## Model

| member | source | states |
|---|---|---|
| Cbor.DecodeOfEncode | mesh-core/src/descriptor.rs:119-188 | the deterministic encoding (RFC 8949, sections 3 and 4.2.1) can be decoded: for every value and any bytes after it the decoder returns that value and leaves those bytes |
| Cbor.EncodeOfDecode | mesh-core/src/descriptor.rs:119-188 | the decoder accepts nothing but deterministic encodings: what it read is the encoding of what it returned |
| Cbor.EncodeInjective | mesh-core/src/descriptor.rs:119-188 | no encoding is a prefix of another one, and different values have different encodings |
| Cbor.HeadCarries | mesh-core/src/descriptor.rs:183-188 | each head has its major type in the top three bits and its argument in the widths of section 3 of RFC 8949: in the information bits, or big-endian in 1, 2, 4 or 8 bytes |
| Cbor.HeadIsShortest | mesh-core/src/descriptor.rs:183-188 | no byte string that carries the same major type and argument is shorter, and none as short is another one |
| Cbor.MajorTypes | mesh-core/src/descriptor.rs:124-181 | integers, byte strings, texts, arrays and maps have the major types 0, 2, 3, 4 and 5 |
| Descriptors.DecodeContentExact | mesh-core/src/descriptor.rs:109-189 | a reader of the eight hashed fields accepts exactly the canonical strings and returns the content each one stands for |
| Descriptors.CanonicalLayout | mesh-core/src/descriptor.rs:124-181 | the id is the BLAKE3 hash of the head A8 of a map of eight and, in this order, ttl, topic, payload, sequence, publisher, timestamp, schema_hash and routing_keys, each name followed by the bytes of the descriptor's own field |
| Descriptors.IdDeterminesContent | mesh-core/src/descriptor.rs:75-96 | two descriptors with one id agree on every hashed field |
| Descriptors.SameSlotExactly | mesh-dht/src/storage.rs:187-197 | two descriptors share a slot if and only if they agree on publisher, schema and topic |
| Descriptors.FieldNamesAscend | mesh-core/src/descriptor.rs:98-107 | the map keys ascend in the bytewise order of their encodings, as section 4.2.1 of RFC 8949 asks |
| Descriptors.ValidationSaysWhy | mesh-core/src/descriptor.rs:234-314 | a refusal names the first check that failed, with the bounds of the code: 120 s of skew, ttls from 60 s to a day, one to eight routing keys, 65536 bytes of payload, 255 of topic |
| Descriptors.AcceptedExactlyWhile | mesh-core/src/descriptor.rs:234-314 | validation accepts a well-formed descriptor exactly in one interval of time, from 120 s before its timestamp until its ttl is over |
| Descriptors.ClockRangeExact | mesh-core/src/descriptor.rs:256-265 | no 64-bit sum of the lifetime arithmetic overflows for any timestamp and ttl, if and only if the clock is at most 2^64 - 1 - (2^32 - 1) * 10^6 |
| Descriptors.ExpiryIsFinal | mesh-core/src/descriptor.rs:256-262 | a descriptor that has expired never comes back to life, whatever its timestamp |
| Descriptors.LifetimeBounded | mesh-core/src/descriptor.rs:256-270 | what was accepted at a is dead from a + 120 s + ttl on: a timestamp in the future buys no more than the tolerated skew |
| SlotMachine.RevocationSchemaBytes | mesh-core/src/schema.rs:23-25 | the schema that makes a descriptor a revocation is the hash of the bytes of `mesh:schema:core/revocation` |
| SlotMachine.KeyRotationSchemaBytes | mesh-core/src/schema.rs:27-29 | that of a rotation, of `mesh:schema:core/key-rotation` |
| SlotMachine.StoreKeepsCoherent | mesh-dht/src/storage.rs:167-227 | a store keeps every entry in its own slot, authentic, and with the sequence of the slot's floor |
| SlotMachine.RunKeepsCoherent | mesh-dht/src/storage.rs:167-227 | the same over every run of stores and evictions |
| SlotMachine.StoreIsExact | mesh-dht/src/storage.rs:167-214 | an ordinary store succeeds exactly when validation, rate limit and floor allow it; then its slot answers with the new descriptor only and every other slot as before, otherwise every get answers as before |
| SlotMachine.RefusalsSayWhy | mesh-dht/src/storage.rs:167-386 | a refusal names the first check that failed, with the values that were compared: the stale sequence and the floor, the stale rotation and the recorded one, the limit of ten, a conflicting successor, a foreign owner |
| SlotMachine.RunIsLater | mesh-dht/src/storage.rs:187-227 | over every run floors never fall, revocations stay, and a recorded rotation is kept or superseded by a strictly later one |
| SlotMachine.NoRollback | mesh-dht/src/storage.rs:187-214 | once a descriptor was accepted, no later get of any key, filter and time returns a lower sequence of its slot, through any stores and evictions in between |
| SlotMachine.RevocationPermanent | mesh-dht/src/storage.rs:411-417 | an id in the revoked set is never returned again, after any further run |
| SlotMachine.RevocationIsForever | mesh-dht/src/storage.rs:279-290 | the target of an accepted revocation, present or not, is returned by no get after it, whatever the store does later |
| SlotMachine.RevocationHidesExactly | mesh-dht/src/storage.rs:279-292 | an accepted revocation hides the descriptors with the target id and nothing else, and stands in its own slot |
| SlotMachine.RevocationAcceptedExactly | mesh-dht/src/storage.rs:230-293 | a revocation that passes the checks is accepted if and only if its payload names a target and no other publisher's descriptor in the store has that id |
| SlotMachine.ForeignRevocationPowerless | mesh-dht/src/storage.rs:269-277 | another publisher's revocation of a stored descriptor is refused; the revoked set and what is returned of any slot but the revocation's own stay as they were |
| SlotMachine.RefusedIsExact | mesh-dht/src/storage.rs:207-226 | after a refusal of what had passed the checks: a malformed payload is returned at its keys nevertheless, any other refusal leaves the slot empty, and every other slot answers as before |
| SlotMachine.RotationAcceptedExactly | mesh-dht/src/storage.rs:296-386 | a rotation is accepted if and only if it is the first of its old identity, a later one or a repetition; only then is it recorded |
| SlotMachine.RotationHistoryFunctional | mesh-dht/src/storage.rs:359-383 | over every run the rotation number of an old identity never falls, and one number never gets two successors |
| SlotMachine.EvictionInvisible | mesh-dht/src/storage.rs:455-465 | evicting at t changes no get at t or later |
| SlotMachine.FilteredExactly | mesh-dht/src/storage.rs:425-441 | a get with filters returns, of what it returns without any, exactly what has the schema, a timestamp no lower than the minimum, and the publisher, as far as each is given |
| SlotMachine.RaisingMinimumNarrows | mesh-dht/src/storage.rs:431-435 | what a get returns with a minimum timestamp it also returns with a lower one |
| SlotMachine.Provenance | mesh-dht/src/storage.rs:167-227 | what the store holds after a run was there before or was accepted by a store of the run that found it valid |
| SlotMachine.ReturnedIsFresh | mesh-dht/src/storage.rs:401-446 | whatever a get at t returns after any run was accepted, valid, less than 120 s + ttl before t |
| SlotMachine.StoredIsExact | mesh-dht/src/storage.rs:198-226 | after an accepted store of anything but a revocation its slot answers with it only, while live, unrevoked and matching, and every other slot as before |
| SlotMachine.StoredIsReturned | mesh-dht/src/storage.rs:207-214 | in particular it is returned at exactly its routing keys |
| MemoryStore.RetainCounts | mesh-dht/src/storage.rs:203-205 | `retain` keeps every copy of what satisfies the rule and no copy of anything else |
| MemoryStore.RetainInOrder | mesh-dht/src/storage.rs:203-205 | what `retain` keeps stays in its order |
| MemoryStore.PushUnderEach | mesh-dht/src/storage.rs:208-214 | filing a descriptor appends one copy per occurrence of the key in its routing keys to the vector of that key, and touches nothing else |
| MemoryStore.FindById | mesh-dht/src/storage.rs:263-267 | the search over all vectors finds a stored descriptor with the id, or none exists |
| MemoryStore.IndexedIffCurrent | mesh-dht/src/storage.rs:203-214 | a descriptor stands somewhere in the index if and only if it is the current one of its slot |
| MemoryStore.DescriptorStore.constructor | mesh-dht/src/storage.rs:138-146 | a new store holds nothing, and its index agrees with the empty slot map |
| MemoryStore.DescriptorStore.StoreDescriptorAt | mesh-dht/src/storage.rs:167-227 | the outcome and the whole new state are those of the reference step, and each current descriptor still stands under each key as often as it lists the key |
| MemoryStore.DescriptorStore.Install | mesh-dht/src/storage.rs:198-214 | the floor is recorded, the older version is gone from all keys, the new one stands at the end of the vectors of its keys, and all others keep their order |
| MemoryStore.DescriptorStore.ProcessRevocation | mesh-dht/src/storage.rs:230-293 | the search through the index decides as the slot map does, and the effects are those of the reference |
| MemoryStore.DescriptorStore.ProcessKeyRotation | mesh-dht/src/storage.rs:296-386 | fork, stale and accepted rotations leave the state of the reference |
| MemoryStore.DescriptorStore.GetDescriptorsAt | mesh-dht/src/storage.rs:401-446 | a get returns exactly the visible current descriptors with the key, each as often as it lists the key, in the order of the key's vector |
| MemoryStore.DescriptorStore.EvictExpiredAt | mesh-dht/src/storage.rs:455-465 | eviction takes exactly the expired descriptors out of the index and keeps all floors |
| RedbTables.TablesAgree | mesh-hub/src/storage/redb.rs:12-16 | the dedup index is a bijection onto the descriptor table, the routing-key index has exactly the pairs of a key and a descriptor that lists it, the sequences have the same domain and the stored sequences |
| RedbTables.TablesDetermined | mesh-hub/src/storage/redb.rs:12-16 | one slot map is represented by one state of the four tables only |
| RedbTables.RewriteRepresents | mesh-hub/src/storage/redb.rs:135-207 | removing the old version by its own routing keys and inserting the new one leaves tables that represent the slot map with that one slot replaced |
| RedbTables.RemoveSlotRepresents | mesh-hub/src/storage/redb.rs:327-349 | removing an expired descriptor leaves tables that represent the slot map without that slot |
| RedbTables.HubStoreIsExact | mesh-hub/src/storage/redb.rs:98-211 | a store succeeds exactly when validation, rate limit (unless skipped) and floor allow it; then its slot answers with the new descriptor only and all others as before, otherwise every get answers as before |
| RedbTables.HubRefusalsSayWhy | mesh-hub/src/storage/redb.rs:98-133 | a refusal of the disk store names the first check that failed, with the values that were compared, and there are no others |
| RedbTables.HubEvictionInvisible | mesh-hub/src/storage/redb.rs:258-263 | evicting at t changes no get at t or later |
| RedbTables.HubFilteredExactly | mesh-hub/src/storage/redb.rs:265-282 | the filters of the disk store select by schema, minimum timestamp and publisher in the same way |
| DiskStore.RedbStorage.Create | mesh-hub/src/storage/redb.rs:59-75 | a fresh database has four empty tables, which represent the empty slot map |
| DiskStore.RedbStorage.Open | mesh-hub/src/storage/redb.rs:59-75 | reopening keeps the four tables and what they represent, and starts with empty rate windows |
| DiskStore.RedbStorage.CheckRateLimit | mesh-hub/src/storage/redb.rs:77-86 | one attempt in the publisher's window, all other windows untouched |
| DiskStore.RedbStorage.StoreDescriptorAt | mesh-hub/src/storage/redb.rs:98-211 | the outcome and the new slot map are those of the reference, the tables represent it, and a failed store changes none of the four |
| DiskStore.RedbStorage.GetDescriptorsAt | mesh-hub/src/storage/redb.rs:225-288 | a get through two tables returns each live matching current descriptor with the key exactly once, and nothing else |
| DiskStore.RedbStorage.EvictExpiredAt | mesh-hub/src/storage/redb.rs:298-352 | collecting the expired rows and removing them one by one leaves exactly the live slots, in all four tables |
| DiskStore.CollectExpired | mesh-hub/src/storage/redb.rs:303-324 | the scan collects every expired row, once, and no other |
| DiskStore.RedbStorage.AllDescriptors | mesh-hub/src/storage/redb.rs:391-422 | the listing for gossip has every live current descriptor, once, and nothing else |
| StoreAgreement.SlotBytesExact | mesh-hub/src/storage/redb.rs:41-47 | two slots have one dedup input if and only if they agree on publisher and algorithm and on digest and topic put together |
| StoreAgreement.SlotBytesInjective | mesh-hub/src/storage/redb.rs:41-47 | slots with one dedup input are equal if and only if their digests have the same length |
| StoreAgreement.ShiftedSlotCollides | mesh-hub/src/storage/redb.rs:41-47 | every slot with a topic shares its dedup key with the slot whose digest has taken the first byte of the topic |
| StoreAgreement.OutcomesAgreeExactly | mesh-dht/src/storage.rs:187-226 | in related states, whatever was revoked before, the outcomes for a descriptor of any kind agree if and only if it undercuts no forgotten floor and the memory store does not refuse its payload |
| StoreAgreement.RelatedAfterStore | mesh-hub/src/storage/redb.rs:98-211 | then the stores stay related: the disk holds what the memory holds and besides only revoked descriptors, each with its floor in memory |
| StoreAgreement.RelatedAfterEvict | mesh-hub/src/storage/redb.rs:298-352 | evicting both at one time keeps them related |
| StoreAgreement.StoresAgreeExactly | mesh-hub/src/storage/redb.rs:98-211 | over every run of stores of any kind and evictions all outcomes agree if and only if no store diverges in this way, and then every get agrees but for the revoked ids |
| StoreAgreement.OrdinaryStoresAgreeExactly | mesh-hub/src/storage/redb.rs:346-348 | over every run of ordinary stores and evictions all outcomes agree if and only if no store falls below the floor of an evicted descriptor, and then every get agrees |
| StoreAgreement.StoresAgreeOnRuns | mesh-dht/src/storage.rs:167-227 | over every run of ordinary stores without evictions the two give the same outcomes and afterwards answer every get alike |
| StoreAgreement.GetsAgreeExactly | mesh-dht/src/storage.rs:279-290 | after both accepted a descriptor of any kind, the gets agree but for what was revoked before and the target of a revocation |
| CacheLayer.AgreesAfterStoreExactly | mesh-hub/src/storage/mod.rs:45-56 | the cache agrees with the backend after a store if and only if the new version drops no cached key of the live version it replaces |
| CacheLayer.StepAgreesExactly | mesh-hub/src/storage/mod.rs:36-120 | a get, store, eviction or loss keeps the live part of every cached answer right if and only if it is no store that drops a cached key of a live version |
| CacheLayer.CacheAgreesExactly | mesh-hub/src/storage/mod.rs:36-120 | over every interleaving on a clock that does not go back, the cache agrees with the backend after each step if and only if no store of the run drops a cached key of a live version |
| CacheLayer.CacheAlwaysAgrees | mesh-hub/src/storage/mod.rs:36-120 | while new versions keep the routing keys of the old ones, every cached answer restricted to live descriptors is the backend's throughout |
| CacheLayer.CachedStorage.StoreDescriptorAt | mesh-hub/src/storage/mod.rs:45-56 | the backend's outcome and state; a refused store leaves the cache alone; agreement is lost exactly when a cached key of a live old version is dropped |
| CacheLayer.CachedStorage.GetDescriptors | mesh-hub/src/storage/mod.rs:58-99 | the live descriptors of the answer, cached or not, are exactly those the backend gives with the same schema, minimum timestamp and publisher |
| CacheLayer.CachedStorage.EvictExpiredAt | mesh-hub/src/storage/mod.rs:117-120 | the backend evicts, and the cache agrees whatever it held before |
| CacheLayer.CachedStorage.Lose | mesh-hub/src/storage/mod.rs:21-24 | losing any entries at any moment is a step of the runs above, and a cache that agreed still does |
| Gossip.DeliverIsHubStore | mesh-hub/src/lib.rs:440-449 | for a valid descriptor a STORE from a peer hub is one delivery: newer or equal sequences win, whatever the rate windows say |
| Gossip.DeliverAllBest | mesh-hub/src/storage/redb.rs:121-133 | after any deliveries each slot holds a delivered descriptor of the highest sequence |
| Gossip.BestUnique | mesh-hub/src/storage/redb.rs:121-133 | there is only one such slot map when each slot has one descriptor of its highest sequence |
| Gossip.DeliveryOrderExactly | mesh-hub/src/storage/redb.rs:98-211 | all orders of a set of deliveries, with any repetitions, end in the same slot map if and only if each slot has one descriptor of its highest sequence |
| Gossip.DeliveryOrderIrrelevant | mesh-hub/src/storage/redb.rs:98-211 | then they leave the same four tables, with the highest sequence in each slot |
| Gossip.RunTracks | mesh-hub/src/peering.rs:653-676 | over every run of publications and sends each hub holds the best of what it received, and nothing that was published is unknown to all hubs |
| Gossip.QuietNetworksAgree | mesh-hub/src/peering.rs:269-308 | when no single STORE of anything a hub holds would change another hub, all hubs hold the same slot map, with the highest sequence of all that was ever published anywhere, whatever was lost on the way |
| Gossip.GossipSettles | mesh-hub/src/peering.rs:269-308 | without two descriptors of one slot and sequence, no more than hubs times descriptors single STOREs change anything |
| Gossip.GossipSettlesExactly | mesh-hub/src/peering.rs:269-308 | this bound holds for every run of single STOREs that publishes from a set if and only if the set has no such two descriptors |
| Gossip.ConflictNeverSettles | mesh-hub/src/peering.rs:269-308 | two such descriptors, published to two hubs, allow a run of any length in which every single STORE changes a third hub |
| HubRounds.RunIsSends | mesh-hub/src/peering.rs:267-308 | every run of publications and rounds is a run of publications and single STOREs with the same published descriptors |
| HubRounds.ListingsExist | mesh-hub/src/storage/redb.rs:391-422 | there are orders that list every slot map completely and without repetition, as the theorems on rounds assume of a hub's listing |
| RoundAgreement.RestAgrees | mesh-hub/src/peering.rs:653-676 | up to fifty published slots, when no round changes any hub, all hubs hold the same, with the highest sequence of everything ever published |
| RoundAgreement.RoundsBringAgreement | mesh-hub/src/peering.rs:653-676 | up to fifty slots, from wherever a run stands, one round from each hub to the first and one back make all hubs equal and best |
| RoundAgreement.CanAlwaysAgreeExactly | mesh-hub/src/peering.rs:254-322 | every run that publishes from a set can be brought to agreement by rounds if and only if there is at most one hub or the set has at most fifty slots |
| RoundAgreement.RestAgreesExactly | mesh-hub/src/peering.rs:254-322 | every network reached by such runs that no round changes agrees if and only if there is at most one hub or the set has at most fifty slots |
| RoundSettling.RoundsSettleExactly | mesh-hub/src/peering.rs:653-676 | no run has more steps that change a hub than hubs times descriptors, if and only if no two descriptors share slot and sequence |
| RoundSettling.ConflictNeverRests | mesh-hub/src/peering.rs:653-676 | two such descriptors, published to two hubs, allow a run of any length in which every round changes a third hub |
| RoundSettling.EveryRunComesToRest | mesh-hub/src/peering.rs:653-676 | any run without such two descriptors is brought to rest by at most hubs times descriptors further rounds, and up to fifty slots to agreement |
| Gossip.RoundReplicatesExactly | mesh-hub/src/peering.rs:254-322 | one round to an empty peer replicates the live slots of the sender if and only if there are at most fifty |
| Gossip.RoundCoversExactly | mesh-hub/src/peering.rs:254-322 | one round to any peer brings it up to date with everything live at the sender if and only if the peer already covered what lies beyond the first fifty |
| GossipRounds.ValidOnesAreDelivered | mesh-hub/src/peering.rs:267-308 | a batch of which everything arrives, and is valid then, is delivered in its order |
| GossipRounds.LossesOnlyOmit | mesh-hub/src/peering.rs:296-308 | whatever is lost or invalid on arrival, the peer ends with the best of what it had and what was delivered |
| GossipRounds.ReceiveStore | mesh-hub/src/lib.rs:440-449 | a peer's STORE is acknowledged exactly when valid and not stale, charges no rate window, and leaves the rate limit switched on |
| GossipRounds.RunGossipRound | mesh-hub/src/peering.rs:653-676 | the peers are offered what the sender's own tables list as live |
| GossipRounds.GossipRound | mesh-hub/src/peering.rs:254-322 | every peer is sent the same first fifty descriptors; each that arrives is judged by the peer's own state and clock at that moment |
| XorMetric.XorAssociates | mesh-dht/src/distance.rs:13-21 | exclusive or of unbounded integers is associative |
| XorMetric.XorCancels | mesh-dht/src/distance.rs:55-64 | the distances from one target tell nodes apart: d(t,a) = d(t,b) only if a = b |
| XorMetric.XorTriangle | mesh-dht/src/distance.rs:13-21 | the distance obeys the triangle inequality |
| XorMetric.BitLengthExact | mesh-dht/src/distance.rs:27-53 | the bit length is i + 1 if and only if 2^i <= x < 2^(i+1) |
| Distance.ValueOfXorBytes | mesh-dht/src/distance.rs:13-21 | exclusive or byte by byte, read big-endian, is exclusive or of the integers |
| Distance.XorDistance | mesh-dht/src/distance.rs:13-21 | the loop computes the distance of the two 256-bit ids |
| Distance.LeadingZeros | mesh-dht/src/distance.rs:27-38 | the byte loop with its early exit returns 256 minus the bit length of the distance |
| Distance.TopBit | mesh-dht/src/distance.rs:46-53 | an index i stands exactly for the distances from 2^i to 2^(i+1) - 1, and only distance zero has none |
| Distance.BucketIndex | mesh-dht/src/distance.rs:46-53 | the index computed through the leading zeros is that of the top bit, and below 256 |
| Distance.DistanceCmp | mesh-dht/src/distance.rs:59-64 | comparing the byte arrays orders nodes by integer distance, and calls equal only equal ids |
| NodeSort.SortIsStable | mesh-dht/src/routing.rs:184-188 | the sort ascends by distance, permutes its input, and keeps the input order at each distance |
| NodeSort.StableSortUnique | mesh-dht/src/routing.rs:184-188 | there is only one list with these properties |
| NodeSort.StreamingTopK | mesh-dht/src/node.rs:352-359 | sorting and truncating after every arrival gives the first K of one sort of everything that ever arrived |
| NodeSort.TakenAreClosest | mesh-dht/src/routing.rs:184-190 | nothing left out is closer than anything taken |
| NodeSort.SortOfSeparated | mesh-dht/src/routing.rs:184-188 | if one group is strictly closer than another, sorting their union is sorting each |
| KBuckets.BucketFor | mesh-dht/src/routing.rs:76-79 | only the local id has no bucket; any other has the one of its distance's bit length |
| KBuckets.InvMeansUnique | mesh-dht/src/routing.rs:92-125 | under the invariant two entries of a bucket have one identity only if they are the same entry, and no entry is the local node |
| KBuckets.AddKeepsInv | mesh-dht/src/routing.rs:92-125 | adding keeps each entry in the bucket of its distance, at most K in each, in strictly ascending order of last contact |
| KBuckets.AddMembersExactly | mesh-dht/src/routing.rs:92-125 | adding drops no member, and makes the node a member unless it is the local one or its bucket is full |
| KBuckets.AddResultExactly | mesh-dht/src/routing.rs:92-125 | the result says `Updated` if and only if the node was a member, and `BucketFull` if and only if it was not and its bucket has K entries |
| KBuckets.AddEntriesExactly | mesh-dht/src/routing.rs:92-125 | no other bucket changes, and in its own only the entry of the node itself |
| KBuckets.AddAllMembersExactly | mesh-dht/src/node.rs:331-338 | entering many nodes, the results ignored, drops no member and makes each node a member unless it is the local one or its bucket is full |
| KBuckets.AddedIsMostRecent | mesh-dht/src/routing.rs:101-117 | a node that was added or updated ends its bucket with its new address, later in touch than every other entry |
| KBuckets.LrsIsLeastRecent | mesh-dht/src/routing.rs:119-124 | the node offered for a challenge is in the full bucket of the candidate, and the least recently touched one there |
| KBuckets.ResolveKeepsInvExactly | mesh-dht/src/routing.rs:133-165 | resolving a challenge keeps the invariant if and only if the node answered or the candidate is not in the bucket already |
| KBuckets.ChallengeKeepsInv | mesh-dht/src/routing.rs:133-165 | resolving what `add_node` returned always keeps it |
| KBuckets.ChallengeExactly | mesh-dht/src/routing.rs:133-165 | a node that answered stays and the candidate stays out; one that did not is replaced by the candidate; no one else comes or goes |
| KBuckets.ResolveMembersExactly | mesh-dht/src/routing.rs:133-165 | resolving with any node and candidate: who answered stays and no one comes; who did not leaves the bucket of the candidate, which joins if there is room then |
| KBuckets.AnsweredIsMostRecent | mesh-dht/src/routing.rs:147-157 | a node that answered moves to the end of its bucket, the others keep their order |
| KBuckets.RemoveKeepsInv | mesh-dht/src/routing.rs:168-176 | removing an id keeps the invariant |
| KBuckets.RemoveMembersExactly | mesh-dht/src/routing.rs:168-176 | removing an id removes the members with that id, whatever their identity, and no other |
| KBuckets.RunKeepsInv | mesh-dht/src/routing.rs:92-176 | the invariant is kept over every run of additions, removals and challenges |
| KBuckets.EveryRunKeepsInv | mesh-dht/src/routing.rs:64-67 | the invariant holds after every run from the empty table |
| KBuckets.RoutingTable.AddNode | mesh-dht/src/routing.rs:92-125 | the buckets after it, the order of last contact and the result are those of the reference step |
| KBuckets.RoutingTable.ResolveChallenge | mesh-dht/src/routing.rs:133-165 | the new buckets are those of the reference step, and valid under the exact condition |
| KBuckets.RoutingTable.RemoveNode | mesh-dht/src/routing.rs:168-176 | the new buckets are those of the reference step |
| KBuckets.RoutingTable.ClosestNodes | mesh-dht/src/routing.rs:180-191 | the first `count` nodes of the stable sort of all buckets |
| BucketGeometry.BucketDecidesLength | mesh-dht/src/routing.rs:76-79 | how the bucket of a node and that of a target bound the distance of the two |
| BucketGeometry.BucketsInOrder | mesh-dht/src/routing.rs:180-191 | for a target in bucket i all nodes by distance are bucket i, then the buckets below it together, then bucket i + 1, i + 2 and so on, each sorted by itself |
| BucketGeometry.OwnIdOrder | mesh-dht/src/distance.rs:40-53 | seen from the local id the buckets are in ascending order of distance: bucket 255 is the farthest |
| DhtLookup.AskedConcat | mesh-dht/src/node.rs:307-346 | what a sequence of requests brings back is what its parts bring back, in order |
| DhtLookup.EmptyMeansNoneSent | mesh-dht/src/node.rs:325-330 | nothing was collected if and only if no answer held a descriptor |
| DhtLookup.OneAnswer | mesh-dht/src/node.rs:325-340 | one answer to FIND_VALUE is collected as it is, in its order; any other reply, or none, brings nothing |
| DhtLookup.NodesCollectedExactly | mesh-dht/src/node.rs:331-338 | a node was collected if and only if an answer to FIND_VALUE named it |
| DhtLookup.DescriptorsCollectedExactly | mesh-dht/src/node.rs:328-330 | a descriptor was collected if and only if an answer to FIND_VALUE held it |
| DhtLookup.EmptyBroadcast | mesh-dht/src/node.rs:367-402 | the fallback finds nothing if and only if it asked every node of the table and none sent a descriptor |
| DhtLookup.OnlyTheLastSent | mesh-dht/src/node.rs:373-402 | of those asked in the fallback only the last sent descriptors, and exactly these are returned |
| DhtLookup.LookupFindsExactly | mesh-dht/src/node.rs:373-404 | when the rounds found nothing and the table has at most K nodes, the answer is not empty if and only if some node of the table sends a descriptor to its fallback request |
| DhtLookup.NoIdInTwoRounds | mesh-dht/src/node.rs:291-299 | no id is asked in two different rounds |
| DhtLookup.AskedAreClosest | mesh-dht/src/node.rs:291-299 | every round asks the closest of its candidates: none that was left out and not asked before is closer than one asked, and alpha are asked if any is left out |
| DhtLookup.StartedOnlyWhile | mesh-dht/src/node.rs:348-364 | a further round starts only while no answer has held a descriptor and some answer of the round before has named a node |
| DhtLookup.CandidatesAreClosest | mesh-dht/src/node.rs:352-359 | at the start of every later round no node ever heard of and left out is closer than a candidate, and there are K candidates if one is left out |
| DhtLookup.QueriedGrows | mesh-dht/src/node.rs:307-309 | each round adds an id of the 256-bit key space to those asked: the measure that ends the loop |
| DhtLookup.DhtNode.LookupValue | mesh-dht/src/node.rs:276-405 | ends for every transport; its rounds ask the first alpha unasked of the K closest of all seen; they end only as `Exhausted` says or with descriptors; the answer is everything that was sent, the fallback asks the table in order up to the first descriptor, and the table has learned exactly the nodes named in answers |
| DhtLookup.DhtNode.AskInRounds | mesh-dht/src/node.rs:289-365 | the main loop, with the trace of its rounds |
| DhtLookup.DhtNode.AskRound | mesh-dht/src/node.rs:305-346 | one round collects all descriptors and nodes of the answers in order, and adds those nodes to the routing table |
| DhtLookup.DhtNode.AskUntilFound | mesh-dht/src/node.rs:373-402 | asks in order until the first answer with a descriptor, and everyone if there is none |
| DhtLookup.DhtNode.MergeIsTopK | mesh-dht/src/node.rs:352-359 | merging a round's nodes into the truncated candidates is taking the K closest of everything seen |
| DhtReplication.ReplicasAreClosest | mesh-dht/src/node.rs:422-460 | no replica is farther from the key than a node of the table or of an answer whose id was not chosen |
| DhtReplication.StoredAtTheClosest | mesh-dht/src/node.rs:422-490 | whoever was sent a STORE was in the table or named in a reply, is not the node itself, and is no farther from the key than any other node heard of whose id was sent none |
| DhtReplication.AskedForNodesAreClosest | mesh-dht/src/node.rs:424-430 | FIND_NODE goes to the closest nodes of the table, alpha of them or K if any is left out |
| DhtReplication.OneReply | mesh-dht/src/node.rs:440-448 | one reply to FIND_NODE is taken as it is, in its order; any other reply, or none, brings nothing |
| DhtReplication.FoundExactly | mesh-dht/src/node.rs:440-448 | a node was learned if and only if a reply to FIND_NODE named it |
| DhtReplication.NoIdAppendedTwice | mesh-dht/src/node.rs:445-447 | no node joins the targets whose id stands earlier among them |
| DhtReplication.OutsideTheClosest | mesh-dht/src/node.rs:422-460 | a node of the table outside its K closest is no closer than any chosen replica |
| DhtReplication.TotalBounded | mesh-dht/src/node.rs:462-491 | at most K acknowledgements are counted per routing key |
| DhtReplication.AcksExactly | mesh-dht/src/node.rs:478-483 | the count for a key is the number of STOREs answered with a positive acknowledgement |
| DhtReplication.OthersExactly | mesh-dht/src/node.rs:472-475 | each replica with another id than the own one is sent a STORE as often as it was chosen |
| DhtReplication.EarlierAnswersAreKnown | mesh-dht/src/node.rs:422-448 | for a later key the table still has everyone it had at first, and everyone named in a reply for an earlier key unless the bucket is full |
| DhtReplication.NumbersAreFresh | mesh-dht/src/node.rs:422-491 | the requests for a later key come after all those for an earlier one |
| DhtReplication.Replicate | mesh-dht/src/node.rs:421-491 | for each key, from the table with everything learned before it, the alpha closest are asked and the chosen replicas, but never the node itself, are sent a STORE; the result counts the acknowledgements |
| DhtReplication.IterativeStore | mesh-dht/src/node.rs:414-497 | the same for the routing keys of a descriptor, and then the local store takes the step of its own reference, whatever the outcome |
| DhtReplication.StoredMeansAcked | mesh-dht/src/node.rs:478-483 | the count for a key is positive if and only if some node it was sent to has acknowledged |
| DhtReplication.AcknowledgedIsFound | mesh-dht/src/node.rs:373-404 | if a node that has acknowledged and answers honestly is in a table of at most K nodes, a later lookup is not empty, and has the descriptor when no one sends others without it |
| DhtReplication.PushUnknown | mesh-dht/src/node.rs:443-448 | a named node joins the targets exactly when its id is not among them, also not through a node named earlier |
| DhtReplication.SendStores | mesh-dht/src/node.rs:462-490 | STOREs go to all targets but those with the own id, in order, and exactly the positive acknowledgements count |
| SlidingWindow.PruneTwiceExactly | mesh-hub/src/rate_limit.rs:227-264 | on any clock, pruning earlier is invisible to a later pruning if and only if nothing young at the later reading was dropped at the earlier one |
| SlidingWindow.PrunedRunIsFullRun | mesh-dht/src/storage.rs:45-61 | on a steady clock each attempt is allowed exactly when the complete log of allowed attempts of its key has fewer than the limit in the window, cleanups anywhere included |
| SlidingWindow.SteadyExactly | mesh-dht/src/storage.rs:45-61 | the decisions are those of the complete log for every run over a clock if and only if the clock is steady |
| SlidingWindow.SweepSpanExactly | mesh-hub/src/rate_limit.rs:227-264 | cleanups change no decision of any ordered run if and only if they prune with a span no shorter than the window |
| SlidingWindow.WindowNeverExceeds | mesh-dht/src/storage.rs:45-61 | at no moment does the window of a key hold more allowed attempts than the limit |
| SlidingWindow.KeptExactly | mesh-dht/src/storage.rs:50-52 | pruning keeps exactly the timestamps that the window still covers, and compares their number with the limit |
| SlidingWindow.FullRunIsAlone | mesh-dht/src/storage.rs:45-61 | in every run the decisions about one key are those of the complete log of that key alone |
| StoreRateLimiter.StoreLimiterExactly | mesh-dht/src/storage.rs:45-61 | with ten operations in sixty seconds, the limiter decides every run over a clock as the complete log does if and only if the clock is steady |
| StoreRateLimiter.AllowedExactly | mesh-dht/src/storage.rs:45-61 | an attempt is allowed if and only if fewer than ten timestamps are less than sixty seconds old, and recorded if and only if allowed |
| StoreRateLimiter.BackwardClockDiffers | mesh-dht/src/storage.rs:149-154 | a clock set back by a minute, at any time, has a run of twelve attempts that the limiter and the complete log decide differently |
| StoreRateLimiter.RateLimiter.CheckAndRecord | mesh-dht/src/storage.rs:48-60 | one attempt in the half-open window of the publisher, all other windows untouched |
| HubRateLimiting.PopExpired | mesh-hub/src/rate_limit.rs:146-153 | popping from the front until a young entry removes exactly the entries older than the closed window |
| HubRateLimiting.CheckWindow | mesh-hub/src/rate_limit.rs:142-164 | one attempt in the closed window of one key and operation |
| HubRateLimiting.SweepWindows | mesh-hub/src/rate_limit.rs:233-245 | a cleanup prunes every window and drops those that became empty |
| HubRateLimiting.HubRateLimiter.CheckIp | mesh-hub/src/rate_limit.rs:133-165 | an operation without a limit is free; any other is one attempt in the window of the address |
| HubRateLimiting.HubRateLimiter.CheckIdentity | mesh-hub/src/rate_limit.rs:171-208 | the same for the identity |
| HubRateLimiting.HubRateLimiter.Check | mesh-hub/src/rate_limit.rs:213-222 | the first refusal is returned; the identity is charged only if the address was admitted, and the address stays charged if the identity is refused |
| HubRateLimiting.HubRateLimiter.Cleanup | mesh-hub/src/rate_limit.rs:227-264 | both tables are swept with twice the window, modulo 2^64 seconds |
| HubRateLimiting.AddressAllowedExactly | mesh-hub/src/rate_limit.rs:133-165 | an address is admitted if and only if its own window of the operation has fewer instants no older than the window than the limit allows |
| HubRateLimiting.IdentityAllowedExactly | mesh-hub/src/rate_limit.rs:171-208 | the same for an identity, whose window is found by its algorithm byte and key |
| HubRateLimiting.AddressesDoNotInterfere | mesh-hub/src/rate_limit.rs:142-144 | a check of one address or operation changes no verdict on another |
| HubRateLimiting.IdentitiesDoNotInterfere | mesh-hub/src/rate_limit.rs:181-187 | a check of one identity or operation changes no verdict on another |
| HubRateLimiting.AddressJudgedAlone | mesh-hub/src/rate_limit.rs:133-264 | over every run of checks and cleanups the decisions about one address and operation are those of the complete log of that address and operation alone |
| HubRateLimiting.IdentityJudgedAlone | mesh-hub/src/rate_limit.rs:171-264 | the same for an identity, of the checks whose address was admitted |
| HubRateLimiting.CleanupChangesNoDecision | mesh-hub/src/rate_limit.rs:227-264 | cleanups inserted anywhere change no decision of the hub's limiter, which are those of the complete log, when twice the window fits 64 bits |
| HubRateLimiting.CleanupHarmlessExactly | mesh-hub/src/rate_limit.rs:228-228 | and only then |
| RoutingKeys.RoutingKeysApart | mesh-core/src/routing.rs:11-14 | routing keys tell all strings apart and are never one of the core schemas, because they are hashed under a prefix of their own |
| RoutingKeys.JoinOfSplit | mesh-core/src/routing.rs:24-32 | joining the segments of a path gives the path back |
| RoutingKeys.SplitOfJoin | mesh-core/src/routing.rs:24-32 | splitting joined segments gives the segments back |
| RoutingKeys.HierarchicalRoutingKeys | mesh-core/src/routing.rs:24-32 | the loop returns one key per level of the path |
| RoutingKeys.KeyNamesPrefix | mesh-core/src/routing.rs:11-32 | the key of q is among those of a path if and only if the segments of q are a prefix of the path's |
| RoutingKeys.KeysDistinct | mesh-core/src/routing.rs:24-32 | the levels of one path have different keys |
| RoutingKeys.DiscoveredExactlyAtPrefixes | mesh-core/src/routing.rs:16-23 | a current descriptor published under a path is returned at the key of q if and only if q is a prefix in segments and the descriptor is visible |
| RoutingKeys.PublishedIsDiscovered | mesh-core/src/routing.rs:16-23 | the same for a descriptor that a store has just accepted |

## Left out

- The handlers for PING, STORE, FIND_NODE and FIND_VALUE and their hooks: each passes its request to one modelled operation.
- `has_descriptors`, `descriptor_count`, `routing_key_count`, `len` and the monitoring counters: read off a field.
- The order in which redb and hash maps are traversed: the order of the rows in a disk store's answer is not modelled, only that each occurs once.
- UTF-8: topics and type paths are byte strings, so some model topics are not strings of the code.
- Clocks beyond `MAX_CLOCK`: there the code's sums can overflow, and what happens then depends on the build profile.
- `unwrap` on a system clock before 1970, and errors of the disk database itself.
- DhtReplication.IterativeStore: routing keys have digests of at least 32 bytes, of which the first 32 count, as in a release build (mesh-dht/src/distance.rs:12-18). `validate` accepts any length; with a shorter digest the code panics once it compares two nodes, and a debug build panics with a longer one too.
- DhtLookup.DhtNode.LookupValue: node ids and targets are points of the 256-bit key space, with the same limit; the encoding of requests and the filters field are not modelled; a request is its number and the address it goes to.
- HubRateLimiting.HubRateLimiter.Cleanup: the product wraps around as in a release build; a build with overflow checks panics there instead.
- RoundAgreement.CanAlwaysAgreeExactly: descriptors do not expire during the run, and each STORE of a round arrives and is valid then; a run that loses some of them is a run of single STOREs. The order of a hub's listing is any function of its slot map, where the code lists by id.
- HubRateLimiting.CleanupHarmlessExactly: instants are unbounded; for windows of about 2^64 seconds the failing run needs an instant later than the code's clock can show, for windows near 2^63 seconds it does not.
- GossipRounds.GossipRound: peers are disk stores addressed directly; connections, failure counters and the cache in front of a peer's store are not part of it.
- CacheLayer.CachedStorage.GetDescriptors: of a cached answer nothing is said about expired descriptors, which it may still contain.
- `pre_store` policy, tenant quotas, usage charging, challenges by DID, the address filter: one branch each.
- QUIC and TLS endpoints, the frame header, certificates, configuration, the gateway, the command-line tools, the SDKs and the bridges.
- Interleavings inside one operation: each holds a mutex throughout.

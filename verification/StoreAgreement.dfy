/**
 The in-memory store and the disk-backed store, compared. The dedup hash of the latter is
 over a concatenation without lengths, its eviction forgets floors, and it does not look
 into the payloads of revocations and rotations; where each of these shows is made exact.
 */
module StoreAgreement {
  import opened Prelude
  import opened Descriptors
  import opened SlidingWindow
  import opened StoreRateLimiter
  import opened SlotMachine
  import opened RedbTables

  const DIGEST_BYTES := 32

  // ----- the dedup concatenation

  /** With keys of one length, the concatenation hides only the border between digest and topic. */
  lemma SlotBytesExact(a: Slot, b: Slot)
    requires |a.publisher.publicKey| == |b.publisher.publicKey|
    ensures SlotBytes(a) == SlotBytes(b) <==>
              (a.publisher == b.publisher && a.schemaHash.algorithm == b.schemaHash.algorithm
               && a.schemaHash.digest + a.topic == b.schemaHash.digest + b.topic)
  {
    var n := 1 + |a.publisher.publicKey|;
    SlotBytesParts(a);
    SlotBytesParts(b);
    if SlotBytes(a) == SlotBytes(b) {
      IdentityBytesInjective(a.publisher, b.publisher);
    }
  }

  lemma SlotBytesParts(a: Slot)
    ensures var n := 1 + |a.publisher.publicKey|;
            && |SlotBytes(a)| > n
            && SlotBytes(a)[..n] == IdentityBytes(a.publisher)
            && SlotBytes(a)[n] == a.schemaHash.algorithm
            && SlotBytes(a)[n + 1..] == a.schemaHash.digest + a.topic
            && SlotBytes(a) == IdentityBytes(a.publisher) + [a.schemaHash.algorithm] + (a.schemaHash.digest + a.topic)
  {
  }

  /** Slots whose digests have one length are told apart. */
  lemma SlotBytesInjective(a: Slot, b: Slot)
    requires |a.publisher.publicKey| == |b.publisher.publicKey|
    requires SlotBytes(a) == SlotBytes(b)
    ensures a == b <==> |a.schemaHash.digest| == |b.schemaHash.digest|
  {
    SlotBytesExact(a, b);
    if |a.schemaHash.digest| == |b.schemaHash.digest| {
      var k := |a.schemaHash.digest|;
      assert (a.schemaHash.digest + a.topic)[..k] == a.schemaHash.digest;
      assert (b.schemaHash.digest + b.topic)[..k] == b.schemaHash.digest;
      assert (a.schemaHash.digest + a.topic)[k..] == a.topic;
      assert (b.schemaHash.digest + b.topic)[k..] == b.topic;
    }
  }

  /** Moving the first byte of the topic into the digest gives another slot with the same dedup key. */
  lemma ShiftedSlotCollides(p: Primitives, a: Slot)
    requires a.topic != []
    ensures var digest := a.schemaHash.digest + [a.topic[0]];
            var b := Slot(a.publisher, Hash(a.schemaHash.algorithm, digest), a.topic[1..]);
            a != b && p.blake3(SlotBytes(a)) == p.blake3(SlotBytes(b))
  {
    var digest := a.schemaHash.digest + [a.topic[0]];
    var b := Slot(a.publisher, Hash(a.schemaHash.algorithm, digest), a.topic[1..]);
    assert digest + b.topic == a.schemaHash.digest + a.topic by {
      assert a.topic == [a.topic[0]] + a.topic[1..];
    }
    SlotBytesExact(a, b);
    assert |digest| != |a.schemaHash.digest|;
  }

  // ----- the two stores side by side

  predicate Standard(s: Slot) {
    |s.schemaHash.digest| == DIGEST_BYTES && |s.publisher.publicKey| == ED25519_KEY_BYTES
  }

  type Windows = map<Identity, seq<nat>>
  type DiskWindows = map<seq<byte>, seq<nat>>

  predicate InMemory(current: map<Slot, Descriptor>, d: Descriptor) {
    SlotOf(d) in current && current[SlotOf(d)] == d
  }

  ghost predicate SameWindows(memory: Windows, disk: DiskWindows) {
    forall who: Identity :: Lookup(memory, who) == Lookup(disk, IdentityBytes(who))
  }

  /**
   The disk holds every current descriptor of the memory store and, besides them, only
   revoked ones; the memory store has the floor of each.
   */
  ghost predicate SlotsRelated(
    p: Primitives, floors: map<Slot, u64>, current: map<Slot, Descriptor>, revoked: set<Hash>, m: SlotMap)
  {
    && (forall d: Descriptor | InMemory(current, d) :: Holds(p, m, d))
    && (forall d: Descriptor | Holds(p, m, d) ::
          Standard(SlotOf(d)) && Floored(floors, d) && (InMemory(current, d) || d.id in revoked))
  }

  predicate Floored(floors: map<Slot, u64>, d: Descriptor) {
    SlotOf(d) in floors && floors[SlotOf(d)] == d.sequence
  }

  ghost predicate Related(p: Primitives, st: State, hub: HubState) {
    && Coherent(p, st) && Proper(p, hub.slots) && SameWindows(st.windows, hub.windows)
    && SlotsRelated(p, st.floors, st.current, st.revoked, hub.slots)
  }

  lemma SlotIffKey(p: Primitives, d: Descriptor, e: Descriptor)
    requires CollisionFree(p) && Standard(SlotOf(d)) && Standard(SlotOf(e))
    ensures SlotOf(d) == SlotOf(e) <==> DedupKey(p, d) == DedupKey(p, e)
  {
    if DedupKey(p, d) == DedupKey(p, e) {
      SlotBytesInjective(SlotOf(d), SlotOf(e));
    }
  }

  /** The two stores compare a sequence with the same floor, as long as the disk store has one. */
  lemma FloorOnDisk(p: Primitives, st: State, hub: HubState, d: Descriptor)
    requires CollisionFree(p) && Related(p, st, hub) && Standard(SlotOf(d))
    ensures DedupKey(p, d) in hub.slots ==>
      SlotOf(d) in st.floors && st.floors[SlotOf(d)] == hub.slots[DedupKey(p, d)].sequence
  {
    hide CollisionFree, Coherent, SameWindows, Authentic, DedupKey, SlotOf;
    if DedupKey(p, d) in hub.slots {
      var e := hub.slots[DedupKey(p, d)];
      assert Holds(p, hub.slots, e);
      SlotIffKey(p, d, e);
    }
  }

  lemma RelatedAfterPut(
    p: Primitives, floors: map<Slot, u64>, current: map<Slot, Descriptor>, revoked: set<Hash>, m: SlotMap,
    d: Descriptor)
    requires CollisionFree(p) && SlotsRelated(p, floors, current, revoked, m) && Standard(SlotOf(d))
    ensures SlotsRelated(p, floors[SlotOf(d) := d.sequence], current[SlotOf(d) := d], revoked, m[DedupKey(p, d) := d])
  {
    hide CollisionFree, DedupKey, SlotOf, Standard;
    var floors', current', m' := floors[SlotOf(d) := d.sequence], current[SlotOf(d) := d], m[DedupKey(p, d) := d];
    forall e: Descriptor | InMemory(current', e) ensures Holds(p, m', e) {
      if e != d {
        assert InMemory(current, e) && Holds(p, m, e);
        SlotIffKey(p, d, e);
      }
    }
    forall e: Descriptor | Holds(p, m', e)
      ensures Standard(SlotOf(e)) && Floored(floors', e) && (InMemory(current', e) || e.id in revoked)
    {
      if e != d {
        assert Holds(p, m, e);
        SlotIffKey(p, d, e);
      }
    }
  }

  lemma RelatedAfterRevoke(
    p: Primitives, floors: map<Slot, u64>, current: map<Slot, Descriptor>, revoked: set<Hash>, m: SlotMap, target: Hash)
    requires SlotsRelated(p, floors, current, revoked, m)
    ensures SlotsRelated(p, floors, Restrict(current, OtherId(target)), revoked + {target}, m)
  {
    hide DedupKey, SlotOf, Standard;
    var current' := Restrict(current, OtherId(target));
    forall e: Descriptor ensures InMemory(current', e) <==> InMemory(current, e) && e.id != target {
    }
  }

  lemma RelatedAfterEvict(p: Primitives, st: State, hub: HubState, t: nat)
    requires Related(p, st, hub)
    ensures Related(p, Evict(st, t), hub.(slots := HubEvict(hub.slots, t)))
  {
    hide DedupKey, Live, Authentic, Standard, SameWindows, SlotOf;
    var current, m := Evict(st, t).current, HubEvict(hub.slots, t);
    forall d: Descriptor ensures InMemory(current, d) <==> InMemory(st.current, d) && Live(d, t) {
    }
    forall d: Descriptor ensures Holds(p, m, d) <==> Holds(p, hub.slots, d) && Live(d, t) {
    }
  }

  lemma SameWindowsAfterCharge(memory: Windows, disk: DiskWindows, who: Identity, entries: seq<nat>)
    requires SameWindows(memory, disk)
    ensures SameWindows(memory[who := entries], disk[IdentityBytes(who) := entries])
  {
    hide IdentityBytes;
    forall other: Identity ensures other != who ==> IdentityBytes(other) != IdentityBytes(who) {
      IdentityBytesInjective(other, who);
    }
  }

  lemma WindowsCorrespond(memory: Windows, disk: DiskWindows, who: Identity)
    requires SameWindows(memory, disk)
    ensures Lookup(memory, who) == Lookup(disk, IdentityBytes(who))
  {
  }

  // ----- one store in both

  /** The checks are passed but for a floor that the disk store has forgotten. */
  predicate BelowForgotten(p: Primitives, st: State, hub: HubState, d: Descriptor, now: Clock) {
    && Validate(p, d, now).Ok? && AdmitStore(Lookup(st.windows, d.publisher), now).allowed
    && SlotOf(d) in st.floors && DedupKey(p, d) !in hub.slots
    && d.sequence < st.floors[SlotOf(d)]
  }

  /** The memory store refuses what it has stored because of what its payload says. */
  predicate PayloadRefused(p: Primitives, st: State, d: Descriptor) {
    || (d.schemaHash == RevocationSchema(p)
        && (p.revocationTarget(d.payload).None?
            || ForeignOwner(st.current, p.revocationTarget(d.payload).value, d.publisher)))
    || (d.schemaHash == KeyRotationSchema(p)
        && (p.rotation(d.payload).None? || RotationRefused(st.rotations, p.rotation(d.payload).value)))
  }

  predicate Diverges(p: Primitives, st: State, hub: HubState, d: Descriptor, now: Clock) {
    BelowForgotten(p, st, hub, d, now) || (PassesChecks(p, st, d, now) && PayloadRefused(p, st, d))
  }

  lemma MemoryOutcome(p: Primitives, st: State, d: Descriptor, now: Clock)
    requires CollisionFree(p) && Coherent(p, st)
    ensures var outcome := Store(p, st, d, now).outcome;
            if Validate(p, d, now).Err? then outcome == Err(ValidationFailed(Validate(p, d, now).error))
            else if !AdmitStore(Lookup(st.windows, d.publisher), now).allowed then
              outcome == Err(RateLimited(RATE_LIMIT_PER_MINUTE))
            else if SlotOf(d) in st.floors && d.sequence < st.floors[SlotOf(d)] then
              outcome == Err(StaleDescriptor(d.sequence, st.floors[SlotOf(d)]))
            else outcome.Ok? <==> !PayloadRefused(p, st, d)
  {
    CoreSchemasDiffer(p);
    if PassesChecks(p, st, d, now) {
      if d.schemaHash == RevocationSchema(p) {
        RevocationAcceptedExactly(p, st, d, now);
      } else if d.schemaHash == KeyRotationSchema(p) {
        RotationAcceptedExactly(p, st, d, now);
      } else {
        StoreIsProcess(p, st, d, now);
      }
      hide Store;
    }
    hide Validate, AdmitStore, RevocationSchema, KeyRotationSchema, ForeignOwner, Coherent, CollisionFree;
  }

  /** Both are charged alike, and the outcomes differ exactly when the store diverges. */
  lemma OutcomesAgreeExactly(p: Primitives, st: State, hub: HubState, d: Descriptor, now: Clock)
    requires CollisionFree(p) && Related(p, st, hub) && |d.schemaHash.digest| == DIGEST_BYTES
    ensures Store(p, st, d, now).outcome == HubStore(p, hub, d, now, false).outcome <==> !Diverges(p, st, hub, d, now)
  {
    MemoryOutcome(p, st, d, now);
    WindowsCorrespond(st.windows, hub.windows, d.publisher);
    hide Store, AdmitStore, DedupKey, SlotsRelated, SameWindows, CollisionFree, IdentityBytes,
      PayloadRefused, Coherent, Proper, Validate;
    if Validate(p, d, now).Ok? {
      ValidIsStandard(p, d, now);
      FloorOnDisk(p, st, hub, d);
    }
  }

  lemma ValidIsStandard(p: Primitives, d: Descriptor, now: Clock)
    requires Validate(p, d, now).Ok? && |d.schemaHash.digest| == DIGEST_BYTES
    ensures Standard(SlotOf(d)) && Authentic(p, d)
  {
    ValidIsAuthentic(p, d, now);
    hide Validate;
  }

  /** What an accepted store of any kind does to the slots. */
  lemma AcceptedEffect(p: Primitives, st: State, d: Descriptor, now: Clock)
    requires CollisionFree(p) && Store(p, st, d, now).outcome.Ok?
    ensures PassesChecks(p, st, d, now)
    ensures var after, put := Store(p, st, d, now).state, st.current[SlotOf(d) := d];
            && after.windows == Charge(st, d.publisher, now).windows
            && after.floors == st.floors[SlotOf(d) := d.sequence]
            && (if d.schemaHash == RevocationSchema(p) then
                  && p.revocationTarget(d.payload).Some?
                  && after.current == Restrict(put, OtherId(p.revocationTarget(d.payload).value))
                  && after.revoked == st.revoked + {p.revocationTarget(d.payload).value}
                else after.current == put && after.revoked == st.revoked)
  {
    CoreSchemasDiffer(p);
    AcceptedPasses(p, st, d, now);
    StoreIsProcess(p, st, d, now);
    hide Store, PassesChecks, AdmitStore, RevocationSchema, KeyRotationSchema, Restrict, ForeignOwner, CollisionFree;
  }

  lemma AcceptedPasses(p: Primitives, st: State, d: Descriptor, now: Clock)
    requires Store(p, st, d, now).outcome.Ok?
    ensures PassesChecks(p, st, d, now)
  {
    hide Validate, AdmitStore, Process;
  }

  /** A refusal before the payload is looked at, or no refusal by the limiter at all, only charges. */
  lemma RefusedEarly(p: Primitives, st: State, d: Descriptor, now: Clock)
    requires !PassesChecks(p, st, d, now)
    ensures Store(p, st, d, now).state == if Validate(p, d, now).Ok? then Charge(st, d.publisher, now) else st
  {
    hide Validate, AdmitStore, Process;
  }

  /** Unless it diverges, a store keeps the two related. */
  lemma RelatedAfterStore(p: Primitives, st: State, hub: HubState, d: Descriptor, now: Clock)
    requires CollisionFree(p) && Related(p, st, hub) && |d.schemaHash.digest| == DIGEST_BYTES
    requires !Diverges(p, st, hub, d, now)
    ensures Related(p, Store(p, st, d, now).state, HubStore(p, hub, d, now, false).state)
  {
    StoreKeepsCoherent(p, st, d, now);
    WindowsCorrespond(st.windows, hub.windows, d.publisher);
    SameWindowsAfterCharge(st.windows, hub.windows, d.publisher,
                           AdmitStore(Lookup(st.windows, d.publisher), now).entries);
    if PassesChecks(p, st, d, now) {
      AcceptedStaysRelated(p, st, hub, d, now);
    } else {
      RefusedEarly(p, st, d, now);
      hide Store, AdmitStore, SlotsRelated, SameWindows, CollisionFree, IdentityBytes, DedupKey,
        PayloadRefused, Coherent, Proper, Validate;
      if Validate(p, d, now).Ok? {
        ValidIsStandard(p, d, now);
        FloorOnDisk(p, st, hub, d);
      }
    }
  }

  lemma AcceptedStaysRelated(p: Primitives, st: State, hub: HubState, d: Descriptor, now: Clock)
    requires CollisionFree(p) && Related(p, st, hub) && |d.schemaHash.digest| == DIGEST_BYTES
    requires PassesChecks(p, st, d, now) && !Diverges(p, st, hub, d, now)
    requires var entries := AdmitStore(Lookup(st.windows, d.publisher), now).entries;
             && Lookup(st.windows, d.publisher) == Lookup(hub.windows, IdentityBytes(d.publisher))
             && SameWindows(st.windows[d.publisher := entries], hub.windows[IdentityBytes(d.publisher) := entries])
    requires Coherent(p, Store(p, st, d, now).state)
    ensures Related(p, Store(p, st, d, now).state, HubStore(p, hub, d, now, false).state)
  {
    MemoryOutcome(p, st, d, now);
    ValidIsStandard(p, d, now);
    FloorOnDisk(p, st, hub, d);
    HubAccepts(p, hub, d, now);
    SlotsAfterAccept(p, st, hub.slots, d, now);
    ProperAfterPut(p, hub.slots, d);
    AcceptedEffect(p, st, d, now);
    hide Store, HubStore, AdmitStore, SlotsRelated, SameWindows, CollisionFree, IdentityBytes, DedupKey,
      RevocationSchema, PayloadRefused, Coherent, Proper, Validate, Restrict, SlotOf, Authentic;
  }

  lemma HubAccepts(p: Primitives, hub: HubState, d: Descriptor, now: Clock)
    ensures var who := IdentityBytes(d.publisher);
            var verdict := AdmitStore(Lookup(hub.windows, who), now);
            Validate(p, d, now).Ok? && verdict.allowed && !Stale(p, hub.slots, d) ==>
              HubStore(p, hub, d, now, false).state
                == HubState(hub.windows[who := verdict.entries], hub.slots[DedupKey(p, d) := d])
  {
    hide Validate, AdmitStore, DedupKey, IdentityBytes;
  }

  lemma SlotsAfterAccept(p: Primitives, st: State, m: SlotMap, d: Descriptor, now: Clock)
    requires CollisionFree(p) && SlotsRelated(p, st.floors, st.current, st.revoked, m) && Standard(SlotOf(d))
    requires Store(p, st, d, now).outcome.Ok?
    ensures var after := Store(p, st, d, now).state;
            SlotsRelated(p, after.floors, after.current, after.revoked, m[DedupKey(p, d) := d])
  {
    AcceptedEffect(p, st, d, now);
    RelatedAfterPut(p, st.floors, st.current, st.revoked, m, d);
    hide Store, SlotsRelated, CollisionFree, DedupKey, RevocationSchema, Restrict, SlotOf, PassesChecks, Charge;
    if d.schemaHash == RevocationSchema(p) {
      RelatedAfterRevoke(p, st.floors[SlotOf(d) := d.sequence], st.current[SlotOf(d) := d], st.revoked,
                         m[DedupKey(p, d) := d], p.revocationTarget(d.payload).value);
    }
  }

  lemma ProperAfterPut(p: Primitives, m: SlotMap, d: Descriptor)
    requires Proper(p, m) && Authentic(p, d)
    ensures Proper(p, m[DedupKey(p, d) := d])
  {
    hide DedupKey, Authentic;
  }

  /** Related stores answer alike, but for what the memory store knows to be revoked. */
  lemma AnswersAgree(
    p: Primitives, st: State, hub: HubState, key: Hash, filters: Option<FilterSet>, t: nat, d: Descriptor)
    requires Related(p, st, hub)
    ensures Returned(st, key, filters, t, d)
       <==> HubReturned(p, hub.slots, key, filters, t, d) && d.id !in st.revoked
  {
    hide Coherent, Proper, SameWindows, Live, Matches, DedupKey, SlotOf, Standard, Floored;
    assert InMemory(st.current, d) ==> Holds(p, hub.slots, d);
  }

  /** The gets after a store that both accept. */
  lemma GetsAgreeExactly(
    p: Primitives, st: State, hub: HubState, d: Descriptor, now: Clock,
    x: Descriptor, key: Hash, filters: Option<FilterSet>, t: nat)
    requires CollisionFree(p) && Related(p, st, hub) && |d.schemaHash.digest| == DIGEST_BYTES
    requires Store(p, st, d, now).outcome.Ok? && HubStore(p, hub, d, now, false).outcome.Ok?
    ensures Returned(Store(p, st, d, now).state, key, filters, t, x)
       <==> HubReturned(p, HubStore(p, hub, d, now, false).state.slots, key, filters, t, x)
            && x.id !in st.revoked
            && (d.schemaHash == RevocationSchema(p) ==> Some(x.id) != p.revocationTarget(d.payload))
  {
    hide Store, HubStore, Related, Returned, HubReturned, Diverges, RevocationSchema, CollisionFree;
    OutcomesAgreeExactly(p, st, hub, d, now);
    RelatedAfterStore(p, st, hub, d, now);
    AnswersAgree(p, Store(p, st, d, now).state, HubStore(p, hub, d, now, false).state, key, filters, t, x);
    RevokedAfter(p, st, d, now, x.id);
  }

  lemma RevokedAfter(p: Primitives, st: State, d: Descriptor, now: Clock, id: Hash)
    requires CollisionFree(p) && Store(p, st, d, now).outcome.Ok?
    ensures id in Store(p, st, d, now).state.revoked
       <==> id in st.revoked || (d.schemaHash == RevocationSchema(p) && Some(id) == p.revocationTarget(d.payload))
  {
    AcceptedEffect(p, st, d, now);
    hide Store, PassesChecks, RevocationSchema, Restrict, CollisionFree, Charge;
  }

  // ----- runs

  function HubAfter(p: Primitives, hub: HubState, op: Op): HubState {
    match op
    case StoreOp(d, now) => HubStore(p, hub, d, now, false).state
    case EvictOp(now) => hub.(slots := HubEvict(hub.slots, now))
  }

  function HubRun(p: Primitives, hub: HubState, ops: seq<Op>): HubState
    decreases |ops|
  {
    if ops == [] then hub else HubRun(p, HubAfter(p, hub, ops[0]), ops[1..])
  }

  /** What the stores of a run return, in order. */
  function MemoryOutcomes(p: Primitives, st: State, ops: seq<Op>): seq<Outcome<StoreError>>
    decreases |ops|
  {
    if ops == [] then []
    else (match ops[0] case StoreOp(d, now) => [Store(p, st, d, now).outcome] case EvictOp(_) => [])
         + MemoryOutcomes(p, After(p, st, ops[0]), ops[1..])
  }

  function DiskOutcomes(p: Primitives, hub: HubState, ops: seq<Op>): seq<Outcome<StoreError>>
    decreases |ops|
  {
    if ops == [] then []
    else (match ops[0] case StoreOp(d, now) => [HubStore(p, hub, d, now, false).outcome] case EvictOp(_) => [])
         + DiskOutcomes(p, HubAfter(p, hub, ops[0]), ops[1..])
  }

  predicate StandardOps(ops: seq<Op>) {
    forall i | 0 <= i < |ops| && ops[i].StoreOp? :: |ops[i].d.schemaHash.digest| == DIGEST_BYTES
  }

  /** No store of the run diverges. */
  predicate NeverDiverges(p: Primitives, st: State, hub: HubState, ops: seq<Op>)
    decreases |ops|
  {
    ops != [] ==>
      && (ops[0].StoreOp? ==> !Diverges(p, st, hub, ops[0].d, ops[0].at))
      && NeverDiverges(p, After(p, st, ops[0]), HubAfter(p, hub, ops[0]), ops[1..])
  }

  lemma {:induction false} RunsAgreeFrom(p: Primitives, st: State, hub: HubState, ops: seq<Op>)
    requires CollisionFree(p) && Related(p, st, hub) && StandardOps(ops)
    ensures MemoryOutcomes(p, st, ops) == DiskOutcomes(p, hub, ops) <==> NeverDiverges(p, st, hub, ops)
    ensures NeverDiverges(p, st, hub, ops) ==> Related(p, Run(p, st, ops), HubRun(p, hub, ops))
    decreases |ops|
  {
    hide Store, HubStore, Evict, HubEvict, Related, CollisionFree, Diverges;
    if ops != [] {
      var st', hub', rest := After(p, st, ops[0]), HubAfter(p, hub, ops[0]), ops[1..];
      match ops[0] {
        case StoreOp(d, now) =>
          OutcomesAgreeExactly(p, st, hub, d, now);
          ConsEqual(Store(p, st, d, now).outcome, MemoryOutcomes(p, st', rest),
                    HubStore(p, hub, d, now, false).outcome, DiskOutcomes(p, hub', rest));
          if !Diverges(p, st, hub, d, now) {
            RelatedAfterStore(p, st, hub, d, now);
            RunsAgreeFrom(p, st', hub', rest);
          }
        case EvictOp(now) =>
          RelatedAfterEvict(p, st, hub, now);
          RunsAgreeFrom(p, st', hub', rest);
          assert MemoryOutcomes(p, st, ops) == MemoryOutcomes(p, st', rest);
          assert DiskOutcomes(p, hub, ops) == DiskOutcomes(p, hub', rest);
      }
    }
  }

  const EMPTY_HUB := HubState(map[], map[])

  lemma EmptyStoresRelated(p: Primitives)
    ensures Related(p, EMPTY, EMPTY_HUB)
  {
  }

  /**
   Over every run of stores of any kind and evictions: all outcomes are the same exactly when
   no store falls below a forgotten floor and no payload is refused, and then the two answer
   every get alike, but for what was revoked.
   */
  lemma StoresAgreeExactly(
    p: Primitives, ops: seq<Op>, key: Hash, filters: Option<FilterSet>, t: nat, d: Descriptor)
    requires CollisionFree(p) && StandardOps(ops)
    ensures MemoryOutcomes(p, EMPTY, ops) == DiskOutcomes(p, EMPTY_HUB, ops)
       <==> NeverDiverges(p, EMPTY, EMPTY_HUB, ops)
    ensures NeverDiverges(p, EMPTY, EMPTY_HUB, ops) ==>
      Returned(Run(p, EMPTY, ops), key, filters, t, d)
        == (HubReturned(p, HubRun(p, EMPTY_HUB, ops).slots, key, filters, t, d)
            && d.id !in Run(p, EMPTY, ops).revoked)
  {
    hide Related, Returned, HubReturned, MemoryOutcomes, DiskOutcomes, NeverDiverges, Run, HubRun, StandardOps,
      CollisionFree;
    EmptyStoresRelated(p);
    RunsAgreeFrom(p, EMPTY, EMPTY_HUB, ops);
    if NeverDiverges(p, EMPTY, EMPTY_HUB, ops) {
      AnswersAgree(p, Run(p, EMPTY, ops), HubRun(p, EMPTY_HUB, ops), key, filters, t, d);
    }
  }

  // ----- runs without revocations and rotations

  predicate Ordinary(p: Primitives, d: Descriptor) {
    && |d.schemaHash.digest| == DIGEST_BYTES
    && d.schemaHash != RevocationSchema(p)
    && d.schemaHash != KeyRotationSchema(p)
  }

  predicate OrdinaryOps(p: Primitives, ops: seq<Op>) {
    forall i | 0 <= i < |ops| && ops[i].StoreOp? :: Ordinary(p, ops[i].d)
  }

  /** The checks are passed but for the floor of a descriptor that was evicted. */
  predicate BelowEvicted(p: Primitives, st: State, d: Descriptor, now: Clock) {
    && Validate(p, d, now).Ok? && AdmitStore(Lookup(st.windows, d.publisher), now).allowed
    && SlotOf(d) in st.floors && SlotOf(d) !in st.current
    && d.sequence < st.floors[SlotOf(d)]
  }

  predicate NeverBelow(p: Primitives, st: State, ops: seq<Op>)
    decreases |ops|
  {
    ops != [] ==>
      && (ops[0].StoreOp? ==> !BelowEvicted(p, st, ops[0].d, ops[0].at))
      && NeverBelow(p, After(p, st, ops[0]), ops[1..])
  }

  /** With nothing revoked, the memory store alone tells which floors the disk store has forgotten. */
  lemma OrdinaryDiverges(p: Primitives, st: State, hub: HubState, d: Descriptor, now: Clock)
    requires CollisionFree(p) && Related(p, st, hub) && st.revoked == {} && Ordinary(p, d)
    ensures Diverges(p, st, hub, d, now) <==> BelowEvicted(p, st, d, now)
  {
    hide AdmitStore, SameWindows, Coherent, Authentic, RevocationSchema, KeyRotationSchema, Validate, DedupKey;
    if Validate(p, d, now).Ok? {
      ValidIsStandard(p, d, now);
      CurrentIffOnDisk(p, st, hub, d);
    }
  }

  lemma CurrentIffOnDisk(p: Primitives, st: State, hub: HubState, d: Descriptor)
    requires CollisionFree(p) && Related(p, st, hub) && st.revoked == {} && Standard(SlotOf(d))
    ensures SlotOf(d) in st.current <==> DedupKey(p, d) in hub.slots
  {
    hide CollisionFree, SameWindows, Authentic, DedupKey, Standard, SlotOf;
    if SlotOf(d) in st.current {
      var e := st.current[SlotOf(d)];
      assert InMemory(st.current, e) && Holds(p, hub.slots, e);
      SlotIffKey(p, d, e);
    }
    if DedupKey(p, d) in hub.slots {
      var e := hub.slots[DedupKey(p, d)];
      assert Holds(p, hub.slots, e) && InMemory(st.current, e);
      SlotIffKey(p, d, e);
    }
  }

  lemma OrdinaryRevokesNothing(p: Primitives, st: State, d: Descriptor, now: Clock)
    requires Ordinary(p, d)
    ensures Store(p, st, d, now).state.revoked == st.revoked
    ensures st.floors.Keys == st.current.Keys ==>
      Store(p, st, d, now).state.floors.Keys == Store(p, st, d, now).state.current.Keys
  {
    hide Validate, AdmitStore, RevocationSchema, KeyRotationSchema, Revoke, Rotate;
  }

  lemma {:induction false} OrdinaryRuns(p: Primitives, st: State, hub: HubState, ops: seq<Op>)
    requires CollisionFree(p) && Related(p, st, hub) && st.revoked == {} && OrdinaryOps(p, ops)
    ensures NeverDiverges(p, st, hub, ops) <==> NeverBelow(p, st, ops)
    ensures Run(p, st, ops).revoked == {}
    decreases |ops|
  {
    hide Store, HubStore, HubEvict, Related, CollisionFree, Diverges, BelowEvicted, Ordinary, Restrict;
    if ops != [] {
      var st', hub', rest := After(p, st, ops[0]), HubAfter(p, hub, ops[0]), ops[1..];
      match ops[0] {
        case StoreOp(d, now) =>
          OrdinaryRevokesNothing(p, st, d, now);
          OrdinaryDiverges(p, st, hub, d, now);
          OrdinaryRevoked(p, st', rest);
          if !Diverges(p, st, hub, d, now) {
            OrdinaryDigest(p, d);
            RelatedAfterStore(p, st, hub, d, now);
            OrdinaryRuns(p, st', hub', rest);
          }
        case EvictOp(now) =>
          RelatedAfterEvict(p, st, hub, now);
          OrdinaryRuns(p, st', hub', rest);
      }
    }
  }

  lemma OrdinaryDigest(p: Primitives, d: Descriptor)
    requires Ordinary(p, d)
    ensures |d.schemaHash.digest| == DIGEST_BYTES
  {
  }

  lemma {:induction false} OrdinaryRevoked(p: Primitives, st: State, ops: seq<Op>)
    requires OrdinaryOps(p, ops)
    ensures Run(p, st, ops).revoked == st.revoked
    decreases |ops|
  {
    hide Store, Ordinary, Restrict;
    if ops != [] {
      if ops[0].StoreOp? {
        OrdinaryRevokesNothing(p, st, ops[0].d, ops[0].at);
      }
      OrdinaryRevoked(p, After(p, st, ops[0]), ops[1..]);
    }
  }

  /**
   Over every run of ordinary stores and evictions: all outcomes are the same exactly when no
   store falls below the floor of an evicted descriptor, and then every get is the same.
   */
  lemma OrdinaryStoresAgreeExactly(
    p: Primitives, ops: seq<Op>, key: Hash, filters: Option<FilterSet>, t: nat, d: Descriptor)
    requires CollisionFree(p) && OrdinaryOps(p, ops)
    ensures MemoryOutcomes(p, EMPTY, ops) == DiskOutcomes(p, EMPTY_HUB, ops) <==> NeverBelow(p, EMPTY, ops)
    ensures NeverBelow(p, EMPTY, ops) ==>
      Returned(Run(p, EMPTY, ops), key, filters, t, d)
        == HubReturned(p, HubRun(p, EMPTY_HUB, ops).slots, key, filters, t, d)
  {
    EmptyStoresRelated(p);
    OrdinaryAreStandard(p, ops);
    hide Related, Returned, HubReturned, MemoryOutcomes, DiskOutcomes, NeverDiverges, NeverBelow, Run, HubRun,
      StandardOps, OrdinaryOps, CollisionFree;
    OrdinaryRuns(p, EMPTY, EMPTY_HUB, ops);
    StoresAgreeExactly(p, ops, key, filters, t, d);
  }

  lemma OrdinaryAreStandard(p: Primitives, ops: seq<Op>)
    requires OrdinaryOps(p, ops)
    ensures StandardOps(ops)
  {
  }

  /** Without evictions no floor is ever forgotten, so the outcomes are always the same. */
  lemma {:induction false} EvictionFreeNeverBelow(p: Primitives, st: State, ops: seq<Op>)
    requires st.floors.Keys == st.current.Keys && OrdinaryOps(p, ops)
    requires forall i | 0 <= i < |ops| :: ops[i].StoreOp?
    ensures NeverBelow(p, st, ops)
    decreases |ops|
  {
    hide Store, Ordinary;
    if ops != [] {
      OrdinaryRevokesNothing(p, st, ops[0].d, ops[0].at);
      EvictionFreeNeverBelow(p, After(p, st, ops[0]), ops[1..]);
    }
  }

  /** On every run of ordinary stores the two give the same outcomes and then answer every get alike. */
  lemma StoresAgreeOnRuns(
    p: Primitives, ops: seq<Op>, key: Hash, filters: Option<FilterSet>, t: nat, d: Descriptor)
    requires CollisionFree(p) && OrdinaryOps(p, ops)
    requires forall i | 0 <= i < |ops| :: ops[i].StoreOp?
    ensures MemoryOutcomes(p, EMPTY, ops) == DiskOutcomes(p, EMPTY_HUB, ops)
    ensures Returned(Run(p, EMPTY, ops), key, filters, t, d)
         == HubReturned(p, HubRun(p, EMPTY_HUB, ops).slots, key, filters, t, d)
  {
    hide Returned, HubReturned, MemoryOutcomes, DiskOutcomes, NeverBelow, Run, HubRun, CollisionFree, OrdinaryOps;
    EvictionFreeNeverBelow(p, EMPTY, ops);
    OrdinaryStoresAgreeExactly(p, ops, key, filters, t, d);
  }
}

/**
 The abstract store: one slot map from (publisher, schema, topic) to the sequence
 floor and the current descriptor, with the revocation set and the rotation map.
 The in-memory `DescriptorStore` refines it step by step, and what the protocol
 promises over whole runs is proved here.
 */
module SlotMachine {
  import opened Prelude
  import opened Descriptors
  import opened SlidingWindow
  import opened StoreRateLimiter

  datatype StoreError =
    | ValidationFailed(reason: ValidationError)
    | StaleDescriptor(received: u64, current: u64)
    | RateLimited(limit: nat)
    | RevocationPublisherMismatch
    | StaleRotation(receivedRotation: u64, currentRotation: u64)
    | RotationForkDetected

  datatype State = State(
    windows: map<Identity, seq<nat>>,
    floors: map<Slot, u64>,
    current: map<Slot, Descriptor>,
    revoked: set<Hash>,
    rotations: map<seq<byte>, (Identity, u64)>)

  datatype Step = Step(state: State, outcome: Outcome<StoreError>)

  const EMPTY: State := State(map[], map[], map[], {}, map[])

  function RevocationSchema(p: Primitives): Hash {
    Blake3(p, Ascii("mesh:schema:core/revocation"))
  }

  function KeyRotationSchema(p: Primitives): Hash {
    Blake3(p, Ascii("mesh:schema:core/key-rotation"))
  }

  // the two core schemas are the hashes of these very bytes

  lemma RevocationSchemaBytes(p: Primitives)
    ensures RevocationSchema(p) == Hash(3, p.blake3([
      109, 101, 115, 104, 58, 115, 99, 104, 101, 109, 97, 58, 99, 111, 114, 101, 47,
      114, 101, 118, 111, 99, 97, 116, 105, 111, 110]))
  {
    var name := Ascii("mesh:schema:core/revocation");
    var bytes := [
      109, 101, 115, 104, 58, 115, 99, 104, 101, 109, 97, 58, 99, 111, 114, 101, 47,
      114, 101, 118, 111, 99, 97, 116, 105, 111, 110];
    assert |name| == |bytes|;
    forall i | 0 <= i < |bytes| ensures name[i] == bytes[i] {
    }
    assert name == bytes;
  }

  lemma KeyRotationSchemaBytes(p: Primitives)
    ensures KeyRotationSchema(p) == Hash(3, p.blake3([
      109, 101, 115, 104, 58, 115, 99, 104, 101, 109, 97, 58, 99, 111, 114, 101, 47,
      107, 101, 121, 45, 114, 111, 116, 97, 116, 105, 111, 110]))
  {
    var name := Ascii("mesh:schema:core/key-rotation");
    var bytes := [
      109, 101, 115, 104, 58, 115, 99, 104, 101, 109, 97, 58, 99, 111, 114, 101, 47,
      107, 101, 121, 45, 114, 111, 116, 97, 116, 105, 111, 110];
    assert |name| == |bytes|;
    forall i | 0 <= i < |bytes| ensures name[i] == bytes[i] {
    }
    assert name == bytes;
  }

  /** The conditions under which the code retains descriptors. */
  datatype Rule =
    | OtherSlot(slot: Slot)
    | OtherId(id: Hash)
    | LiveAt(now: nat)
    | Visible(revoked: set<Hash>, filters: Option<FilterSet>, at: nat)

  predicate Keeps(rule: Rule, d: Envelope) {
    match rule
    case OtherSlot(slot) => SlotOf(d) != slot
    case OtherId(id) => d.id != id
    case LiveAt(now) => Live(d, now)
    case Visible(revoked, filters, at) => d.id !in revoked && Live(d, at) && Matches(filters, d)
  }

  function Restrict(current: map<Slot, Descriptor>, rule: Rule): map<Slot, Descriptor> {
    map s | s in current && Keeps(rule, current[s]) :: current[s]
  }

  // ----- the operations

  /** Some other publisher's entry has the id. */
  predicate ForeignOwner(current: map<Slot, Descriptor>, id: Hash, publisher: Identity) {
    exists s <- current :: current[s].id == id && current[s].publisher != publisher
  }

  /** A revocation that was just stored takes effect, unless its target is there under another publisher. */
  function Revoke(p: Primitives, st: State, d: Descriptor): Step {
    match p.revocationTarget(d.payload)
    case None => Step(st, Err(ValidationFailed(MalformedPayload)))
    case Some(target) =>
      if ForeignOwner(st.current, target, d.publisher) then
        Step(st.(current := Restrict(st.current, OtherId(d.id))), Err(RevocationPublisherMismatch))
      else
        Step(st.(current := Restrict(st.current, OtherId(target)), revoked := st.revoked + {target}), Ok)
  }

  /** An earlier rotation than the recorded one, or another successor under its number. */
  predicate RotationRefused(rotations: map<seq<byte>, (Identity, u64)>, r: Rotation) {
    r.oldIdentity in rotations &&
    var (successor, sequence) := rotations[r.oldIdentity];
    r.sequence < sequence || (r.sequence == sequence && r.newIdentity != successor)
  }

  function Rotate(p: Primitives, st: State, d: Descriptor): Step {
    match p.rotation(d.payload)
    case None => Step(st, Err(ValidationFailed(MalformedPayload)))
    case Some(r) =>
      var known := r.oldIdentity in st.rotations;
      if known && r.sequence == st.rotations[r.oldIdentity].1 && st.rotations[r.oldIdentity].0 != r.newIdentity then
        Step(st.(current := Restrict(st.current, OtherId(d.id))), Err(RotationForkDetected))
      else if known && r.sequence < st.rotations[r.oldIdentity].1 then
        Step(st.(current := Restrict(st.current, OtherId(d.id))),
             Err(StaleRotation(r.sequence, st.rotations[r.oldIdentity].1)))
      else
        Step(st.(rotations := st.rotations[r.oldIdentity := (r.newIdentity, r.sequence)]), Ok)
  }

  /** What storing a descriptor of a core schema does beyond storing it. */
  function Process(p: Primitives, st: State, d: Descriptor): Step {
    var revoked := if d.schemaHash == RevocationSchema(p) then Revoke(p, st, d) else Step(st, Ok);
    if revoked.outcome.Ok? && d.schemaHash == KeyRotationSchema(p) then Rotate(p, revoked.state, d) else revoked
  }

  function Charge(st: State, publisher: Identity, now: nat): State {
    st.(windows := st.windows[publisher := AdmitStore(Lookup(st.windows, publisher), now).entries])
  }

  /** A newer or equal sequence replaces whatever the slot held. */
  function Replace(st: State, d: Descriptor): State {
    st.(floors := st.floors[SlotOf(d) := d.sequence], current := st.current[SlotOf(d) := d])
  }

  function Store(p: Primitives, st: State, d: Descriptor, now: Clock): Step {
    var valid := Validate(p, d, now);
    if valid.Err? then Step(st, Err(ValidationFailed(valid.error)))
    else
      var charged := Charge(st, d.publisher, now);
      if !AdmitStore(Lookup(st.windows, d.publisher), now).allowed then
        Step(charged, Err(RateLimited(RATE_LIMIT_PER_MINUTE)))
      else if SlotOf(d) in st.floors && d.sequence < st.floors[SlotOf(d)] then
        Step(charged, Err(StaleDescriptor(d.sequence, st.floors[SlotOf(d)])))
      else
        Process(p, Replace(charged, d), d)
  }

  function Evict(st: State, now: nat): State {
    st.(current := Restrict(st.current, LiveAt(now)))
  }

  predicate Returned(st: State, key: Hash, filters: Option<FilterSet>, now: nat, d: Descriptor) {
    && SlotOf(d) in st.current && st.current[SlotOf(d)] == d
    && key in d.routingKeys
    && Keeps(Visible(st.revoked, filters, now), d)
  }

  /** Each field of a filter that is set must fit: schema and publisher exactly, the timestamp from the minimum on. */
  lemma FilteredExactly(
    st: State, key: Hash, schema: Option<Hash>, minimum: Option<u64>, publisher: Option<Identity>,
    now: nat, d: Descriptor)
    ensures Returned(st, key, Some(FilterSet(schema, minimum, publisher)), now, d) <==>
      && Returned(st, key, None, now, d)
      && (schema.None? || schema == Some(d.schemaHash))
      && (minimum.None? || minimum.value <= d.timestamp)
      && (publisher.None? || publisher == Some(d.publisher))
  {
    hide Live;
  }

  /** Raising the minimum timestamp only narrows an answer. */
  lemma RaisingMinimumNarrows(
    st: State, key: Hash, schema: Option<Hash>, low: u64, high: u64, publisher: Option<Identity>, now: nat,
    d: Descriptor)
    requires low <= high && Returned(st, key, Some(FilterSet(schema, Some(high), publisher)), now, d)
    ensures Returned(st, key, Some(FilterSet(schema, Some(low), publisher)), now, d)
  {
    FilteredExactly(st, key, schema, Some(low), publisher, now, d);
    FilteredExactly(st, key, schema, Some(high), publisher, now, d);
    hide Returned;
  }

  // ----- runs

  datatype Op = StoreOp(d: Descriptor, at: Clock) | EvictOp(at: Clock)

  function After(p: Primitives, st: State, op: Op): State {
    match op
    case StoreOp(d, now) => Store(p, st, d, now).state
    case EvictOp(now) => Evict(st, now)
  }

  function Run(p: Primitives, st: State, ops: seq<Op>): State
    decreases |ops|
  {
    if ops == [] then st else Run(p, After(p, st, ops[0]), ops[1..])
  }

  /** Every entry sits in its own slot, is authentic, and carries the sequence of the floor. */
  ghost predicate Coherent(p: Primitives, st: State) {
    forall s <- st.current ::
      && SlotOf(st.current[s]) == s
      && Authentic(p, st.current[s])
      && s in st.floors && st.floors[s] == st.current[s].sequence
  }

  // ----- what only grows

  ghost predicate FloorsRise(a: State, b: State) {
    forall s <- a.floors :: s in b.floors && a.floors[s] <= b.floors[s]
  }

  /** A recorded rotation is either kept or superseded by a strictly later one. */
  ghost predicate RotationsAdvance(a: State, b: State) {
    forall o <- a.rotations ::
      o in b.rotations && (a.rotations[o] == b.rotations[o] || a.rotations[o].1 < b.rotations[o].1)
  }

  ghost predicate Later(a: State, b: State) {
    FloorsRise(a, b) && a.revoked <= b.revoked && RotationsAdvance(a, b)
  }

  /** Each entry of `after` is an entry of `before`. */
  ghost predicate Narrowed(before: map<Slot, Descriptor>, after: map<Slot, Descriptor>) {
    forall s <- after :: s in before && after[s] == before[s]
  }

  ghost predicate OnlyCharged(st: State, after: State) {
    after == st.(windows := after.windows)
  }

  ghost predicate Installed(p: Primitives, st: State, d: Descriptor, now: Clock, after: State) {
    && Validate(p, d, now).Ok?
    && (SlotOf(d) in st.floors ==> st.floors[SlotOf(d)] <= d.sequence)
    && after.floors == st.floors[SlotOf(d) := d.sequence]
    && Narrowed(st.current[SlotOf(d) := d], after.current)
    && st.revoked <= after.revoked
    && RotationsAdvance(st, after)
  }

  lemma ProcessEffect(p: Primitives, st: State, d: Descriptor)
    ensures var after := Process(p, st, d).state;
            && after.floors == st.floors && Narrowed(st.current, after.current)
            && st.revoked <= after.revoked && RotationsAdvance(st, after)
  {
    RevokeEffect(p, st, d);
    RotateEffect(p, Revoke(p, st, d).state, d);
    RotateEffect(p, st, d);
    hide Revoke, Rotate, RevocationSchema, KeyRotationSchema;
  }

  lemma RevokeEffect(p: Primitives, st: State, d: Descriptor)
    ensures var after := Revoke(p, st, d).state;
            && after.floors == st.floors && Narrowed(st.current, after.current)
            && st.revoked <= after.revoked && after.rotations == st.rotations
  {
  }

  lemma RotateEffect(p: Primitives, st: State, d: Descriptor)
    ensures var after := Rotate(p, st, d).state;
            && after.floors == st.floors && Narrowed(st.current, after.current)
            && after.revoked == st.revoked && RotationsAdvance(st, after)
  {
  }

  /** A store either only charges the publisher's window, or installs the descriptor. */
  lemma StoreEffect(p: Primitives, st: State, d: Descriptor, now: Clock)
    ensures var step := Store(p, st, d, now);
            (step.outcome.Err? && OnlyCharged(st, step.state)) || Installed(p, st, d, now, step.state)
  {
    ProcessEffect(p, Replace(Charge(st, d.publisher, now), d), d);
    hide Process, Validate, AdmitStore;
  }

  lemma StoreKeepsCoherent(p: Primitives, st: State, d: Descriptor, now: Clock)
    requires Coherent(p, st)
    ensures Coherent(p, Store(p, st, d, now).state)
  {
    StoreEffect(p, st, d, now);
    hide Store, Validate;
    if Validate(p, d, now).Ok? {
      ValidIsAuthentic(p, d, now);
    }
  }

  lemma AfterKeepsCoherent(p: Primitives, st: State, op: Op)
    requires Coherent(p, st)
    ensures Coherent(p, After(p, st, op))
  {
    if op.StoreOp? {
      StoreKeepsCoherent(p, st, op.d, op.at);
    }
  }

  lemma {:induction false} RunKeepsCoherent(p: Primitives, st: State, ops: seq<Op>)
    requires Coherent(p, st)
    ensures Coherent(p, Run(p, st, ops))
    decreases |ops|
  {
    if ops != [] {
      AfterKeepsCoherent(p, st, ops[0]);
      RunKeepsCoherent(p, After(p, st, ops[0]), ops[1..]);
    }
  }

  // ----- what every run keeps

  lemma AfterIsLater(p: Primitives, st: State, op: Op)
    ensures Later(st, After(p, st, op))
  {
    if op.StoreOp? {
      StoreEffect(p, st, op.d, op.at);
      hide Store, Validate;
    }
  }

  lemma {:induction false} RunIsLater(p: Primitives, st: State, ops: seq<Op>)
    ensures Later(st, Run(p, st, ops))
    decreases |ops|
  {
    if ops != [] {
      AfterIsLater(p, st, ops[0]);
      RunIsLater(p, After(p, st, ops[0]), ops[1..]);
    }
  }

  /** Once a descriptor was stored, no later get returns a lower sequence for its slot. */
  lemma NoRollback(
    p: Primitives, st: State, d: Descriptor, now: Clock, ops: seq<Op>,
    key: Hash, filters: Option<FilterSet>, t: nat, got: Descriptor)
    requires Coherent(p, st) && Store(p, st, d, now).outcome.Ok?
    requires Returned(Run(p, Store(p, st, d, now).state, ops), key, filters, t, got)
    requires SlotOf(got) == SlotOf(d)
    ensures got.sequence >= d.sequence
  {
    var stored := Store(p, st, d, now).state;
    StoreKeepsCoherent(p, st, d, now);
    RunKeepsCoherent(p, stored, ops);
    RunIsLater(p, stored, ops);
    StoreEffect(p, st, d, now);
    hide Store, Validate, Run;
  }

  /** A revoked id is never returned again, at any key, with any filters, at any time. */
  lemma RevocationPermanent(
    p: Primitives, st: State, id: Hash, ops: seq<Op>, key: Hash, filters: Option<FilterSet>, t: nat, got: Descriptor)
    requires id in st.revoked
    requires Returned(Run(p, st, ops), key, filters, t, got)
    ensures got.id != id
  {
    RunIsLater(p, st, ops);
  }

  /** For one old identity the sequence never falls, and one sequence never names two successors. */
  lemma RotationHistoryFunctional(p: Primitives, st: State, ops: seq<Op>, oldIdentity: seq<byte>)
    requires oldIdentity in st.rotations
    ensures var was, now := st.rotations[oldIdentity], Run(p, st, ops).rotations;
            && oldIdentity in now
            && was.1 <= now[oldIdentity].1
            && (was.1 == now[oldIdentity].1 ==> was.0 == now[oldIdentity].0)
  {
    RunIsLater(p, st, ops);
  }

  // ----- revocation authority

  predicate IsRevocationOf(p: Primitives, d: Descriptor, target: Hash) {
    d.schemaHash == RevocationSchema(p) && p.revocationTarget(d.payload) == Some(target)
  }

  /** The two core schemas are different hashes. */
  lemma CoreSchemasDiffer(p: Primitives)
    requires CollisionFree(p)
    ensures RevocationSchema(p) != KeyRotationSchema(p)
  {
    assert |Ascii("mesh:schema:core/revocation")| != |Ascii("mesh:schema:core/key-rotation")|;
  }

  /** A revocation that its store accepts is in force, and hides its target at once. */
  lemma RevocationTakesEffect(p: Primitives, st: State, d: Descriptor, now: Clock, target: Hash)
    requires IsRevocationOf(p, d, target) && Store(p, st, d, now).outcome.Ok?
    ensures target in Store(p, st, d, now).state.revoked
  {
  }

  /** The target of an accepted revocation is returned by no get after it, whatever the store does later. */
  lemma RevocationIsForever(
    p: Primitives, st: State, d: Descriptor, now: Clock, target: Hash, ops: seq<Op>,
    key: Hash, filters: Option<FilterSet>, t: nat, got: Descriptor)
    requires IsRevocationOf(p, d, target) && Store(p, st, d, now).outcome.Ok?
    requires Returned(Run(p, Store(p, st, d, now).state, ops), key, filters, t, got)
    ensures got.id != target
  {
    RevocationTakesEffect(p, st, d, now, target);
    hide Store, Run, Returned, IsRevocationOf;
    RevocationPermanent(p, Store(p, st, d, now).state, target, ops, key, filters, t, got);
  }

  lemma ForeignTargetRefused(p: Primitives, st: State, d: Descriptor, target: Descriptor)
    requires SlotOf(target) in st.current && st.current[SlotOf(target)] == target
    requires IsRevocationOf(p, d, target.id) && d.publisher != target.publisher
    ensures Process(p, st, d)
         == Step(st.(current := Restrict(st.current, OtherId(d.id))), Err(RevocationPublisherMismatch))
  {
    hide Restrict, Rotate;
  }

  lemma ForeignRevocationRefused(p: Primitives, st: State, d: Descriptor, now: Clock, target: Descriptor)
    requires SlotOf(target) in st.current && st.current[SlotOf(target)] == target
    requires IsRevocationOf(p, d, target.id) && d.publisher != target.publisher
    ensures var after := Store(p, st, d, now);
            && after.outcome.Err? && after.state.revoked == st.revoked
            && (after.state.current == st.current
                || (Validate(p, d, now).Ok?
                    && after.state.current == Restrict(st.current[SlotOf(d) := d], OtherId(d.id))))
  {
    var replaced := Replace(Charge(st, d.publisher, now), d);
    assert SlotOf(target) != SlotOf(d);
    ForeignTargetRefused(p, replaced, d, target);
    hide Validate, AdmitStore, Process, Restrict, IsRevocationOf;
  }

  lemma ForeignRevocationKeepsSlot(p: Primitives, st: State, d: Descriptor, now: Clock, target: Descriptor, s: Slot)
    requires CollisionFree(p) && Coherent(p, st)
    requires SlotOf(target) in st.current && st.current[SlotOf(target)] == target
    requires IsRevocationOf(p, d, target.id) && d.publisher != target.publisher && s != SlotOf(d)
    ensures var after := Store(p, st, d, now).state.current;
            (s in after <==> s in st.current) && (s in after ==> after[s] == st.current[s])
  {
    ForeignRevocationRefused(p, st, d, now, target);
    hide Store, Validate, IsRevocationOf, CollisionFree, Authentic, Coherent, SlotOf, Restrict;
    if Store(p, st, d, now).state.current != st.current {
      ValidIsAuthentic(p, d, now);
      if s in st.current {
        OtherSlotHasOtherId(p, st, d, s);
      }
      KeptSlot(st.current, d, s);
    }
  }

  lemma KeptSlot(current: map<Slot, Descriptor>, d: Descriptor, s: Slot)
    requires s != SlotOf(d) && (s in current ==> current[s].id != d.id)
    ensures var after := Restrict(current[SlotOf(d) := d], OtherId(d.id));
            (s in after <==> s in current) && (s in after ==> after[s] == current[s])
  {
    hide SlotOf;
  }

  lemma OtherSlotHasOtherId(p: Primitives, st: State, d: Descriptor, s: Slot)
    requires CollisionFree(p) && Coherent(p, st) && Authentic(p, d) && s in st.current && s != SlotOf(d)
    ensures st.current[s].id != d.id
  {
    hide CollisionFree, Authentic;
    if st.current[s].id == d.id {
      AuthenticIdsIdentify(p, st.current[s], d);
    }
  }

  /**
   Someone else's revocation of a descriptor that is in the store is refused. It changes
   neither the revoked set nor what is returned of any slot but the revocation's own.
   */
  lemma ForeignRevocationPowerless(
    p: Primitives, st: State, d: Descriptor, now: Clock, target: Descriptor,
    x: Descriptor, key: Hash, filters: Option<FilterSet>, t: nat)
    requires CollisionFree(p) && Coherent(p, st)
    requires SlotOf(target) in st.current && st.current[SlotOf(target)] == target
    requires IsRevocationOf(p, d, target.id) && d.publisher != target.publisher
    ensures var after := Store(p, st, d, now);
            && after.outcome.Err?
            && after.state.revoked == st.revoked
            && (SlotOf(x) != SlotOf(d) ==>
                  Returned(after.state, key, filters, t, x) == Returned(st, key, filters, t, x))
  {
    ForeignRevocationRefused(p, st, d, now, target);
    if SlotOf(x) != SlotOf(d) {
      ForeignRevocationKeepsSlot(p, st, d, now, target, SlotOf(x));
    }
    hide Store, Validate, IsRevocationOf, Keeps, Coherent, CollisionFree, Restrict;
  }

  // ----- eviction and lifetime

  /** Evicting at `t` changes no get at `t` or later. */
  lemma EvictionInvisible(st: State, t: nat, t': nat, key: Hash, filters: Option<FilterSet>, d: Descriptor)
    requires t <= t'
    ensures Returned(Evict(st, t), key, filters, t', d) == Returned(st, key, filters, t', d)
  {
    if !Live(d, t) {
      ExpiryIsFinal(d, t, t');
    }
  }

  ghost predicate AcceptedIn(p: Primitives, d: Descriptor, ops: seq<Op>) {
    exists i | 0 <= i < |ops| ::
      ops[i].StoreOp? && ops[i].d == d && Validate(p, d, ops[i].at).Ok?
  }

  lemma AcceptedLater(p: Primitives, d: Descriptor, ops: seq<Op>)
    requires ops != [] && AcceptedIn(p, d, ops[1..])
    ensures AcceptedIn(p, d, ops)
  {
    hide Validate;
    var i :| 0 <= i < |ops| - 1
      && ops[1..][i].StoreOp? && ops[1..][i].d == d && Validate(p, d, ops[1..][i].at).Ok?;
    assert ops[i + 1] == ops[1..][i];
  }

  /** Whatever the store holds was given to it, valid at the time, by some store of the run. */
  lemma {:induction false} Provenance(p: Primitives, st: State, ops: seq<Op>, s: Slot)
    requires s in Run(p, st, ops).current
    ensures (s in st.current && st.current[s] == Run(p, st, ops).current[s])
         || AcceptedIn(p, Run(p, st, ops).current[s], ops)
    decreases |ops|
  {
    if ops != [] {
      var next := After(p, st, ops[0]);
      Provenance(p, next, ops[1..], s);
      var d := Run(p, next, ops[1..]).current[s];
      if ops[0].StoreOp? {
        StoreEffect(p, st, ops[0].d, ops[0].at);
      }
      hide Store, Validate, Evict, Run;
      if AcceptedIn(p, d, ops[1..]) {
        AcceptedLater(p, d, ops);
      } else if !(s in st.current && st.current[s] == d) {
        assert ops[0].StoreOp? && ops[0].d == d && Validate(p, d, ops[0].at).Ok?;
      }
    }
  }

  /** Over any run: what is returned at `t` was accepted less than its ttl and the clock skew ago. */
  lemma ReturnedIsFresh(p: Primitives, ops: seq<Op>, key: Hash, filters: Option<FilterSet>, t: nat, d: Descriptor)
    requires Returned(Run(p, EMPTY, ops), key, filters, t, d)
    ensures exists i | 0 <= i < |ops| :: ops[i].StoreOp? && ops[i].d == d && Validate(p, d, ops[i].at).Ok?
              && t < ops[i].at + MAX_CLOCK_SKEW_MICROS + d.ttl * MICROS_PER_SEC
  {
    Provenance(p, EMPTY, ops, SlotOf(d));
    var i :| 0 <= i < |ops| && ops[i].StoreOp? && ops[i].d == d && Validate(p, d, ops[i].at).Ok?;
    if t >= ops[i].at + MAX_CLOCK_SKEW_MICROS + d.ttl * MICROS_PER_SEC {
      LifetimeBounded(p, d, ops[i].at, t);
    }
  }

  /** An ordinary descriptor that was accepted is returned at each of its keys while live and unrevoked. */
  lemma StoredIsReturned(
    p: Primitives, st: State, d: Descriptor, now: Clock, key: Hash, filters: Option<FilterSet>, t: nat)
    requires d.schemaHash != RevocationSchema(p)
    requires Store(p, st, d, now).outcome.Ok?
    ensures Returned(Store(p, st, d, now).state, key, filters, t, d)
       <==> key in d.routingKeys && Keeps(Visible(st.revoked, filters, t), d)
  {
    StoredIsExact(p, st, d, now, d, key, filters, t);
    hide Store, Returned, Keeps, RevocationSchema;
  }

  // ----- exactly what a store does

  /** An accepted store that is no revocation: the slot answers with it, all others as before. */
  lemma StoredIsExact(
    p: Primitives, st: State, d: Descriptor, now: Clock,
    x: Descriptor, key: Hash, filters: Option<FilterSet>, t: nat)
    requires d.schemaHash != RevocationSchema(p) && Store(p, st, d, now).outcome.Ok?
    ensures Returned(Store(p, st, d, now).state, key, filters, t, x) <==>
      if SlotOf(x) == SlotOf(d) then x == d && key in d.routingKeys && Keeps(Visible(st.revoked, filters, t), d)
      else Returned(st, key, filters, t, x)
  {
    hide Validate, AdmitStore, Keeps, RevocationSchema, KeyRotationSchema, Revoke;
  }

  predicate PassesChecks(p: Primitives, st: State, d: Descriptor, now: Clock) {
    && Validate(p, d, now).Ok?
    && AdmitStore(Lookup(st.windows, d.publisher), now).allowed
    && (SlotOf(d) in st.floors ==> st.floors[SlotOf(d)] <= d.sequence)
  }

  /**
   An ordinary store succeeds exactly when its checks pass. Then the slot answers with the
   new descriptor alone and every other slot answers as before; otherwise nothing changes.
   */
  lemma StoreIsExact(
    p: Primitives, st: State, d: Descriptor, now: Clock,
    x: Descriptor, key: Hash, filters: Option<FilterSet>, t: nat)
    requires d.schemaHash != RevocationSchema(p) && d.schemaHash != KeyRotationSchema(p)
    ensures var step := Store(p, st, d, now);
            && (step.outcome.Ok? <==> PassesChecks(p, st, d, now))
            && (Returned(step.state, key, filters, t, x) <==>
                  if step.outcome.Ok? && SlotOf(x) == SlotOf(d) then
                    x == d && key in d.routingKeys && Keeps(Visible(st.revoked, filters, t), d)
                  else Returned(st, key, filters, t, x))
  {
    hide Validate, AdmitStore, Keeps, RevocationSchema, KeyRotationSchema, Revoke, Rotate;
  }

  /**
   A revocation that passes the checks is accepted exactly when its payload names a target
   and no other publisher's descriptor with that id is in the store: for an absent target
   there is no owner to compare with.
   */
  lemma RevocationAcceptedExactly(p: Primitives, st: State, d: Descriptor, now: Clock)
    requires CollisionFree(p) && Coherent(p, st)
    requires d.schemaHash == RevocationSchema(p) && PassesChecks(p, st, d, now)
    ensures Store(p, st, d, now).outcome.Ok? <==>
      p.revocationTarget(d.payload).Some? &&
      !ForeignOwner(st.current, p.revocationTarget(d.payload).value, d.publisher)
  {
    StoreIsRevoke(p, st, d, now);
    hide Store, Validate, AdmitStore, RevocationSchema, Restrict, CollisionFree, Authentic, ForeignOwner;
    if p.revocationTarget(d.payload).Some? {
      OwnEntryIsNotForeign(st.current, d, p.revocationTarget(d.payload).value);
    }
  }

  lemma OwnEntryIsNotForeign(current: map<Slot, Descriptor>, d: Descriptor, target: Hash)
    requires forall s <- current :: SlotOf(current[s]) == s
    ensures ForeignOwner(current[SlotOf(d) := d], target, d.publisher) <==> ForeignOwner(current, target, d.publisher)
  {
    var replaced := current[SlotOf(d) := d];
    if s :| s in current && current[s].id == target && current[s].publisher != d.publisher {
      assert s != SlotOf(d) && replaced[s] == current[s];
    }
    if s :| s in replaced && replaced[s].id == target && replaced[s].publisher != d.publisher {
      assert s != SlotOf(d) && replaced[s] == current[s];
    }
  }

  lemma StoreIsRevoke(p: Primitives, st: State, d: Descriptor, now: Clock)
    requires CollisionFree(p) && d.schemaHash == RevocationSchema(p) && PassesChecks(p, st, d, now)
    ensures Store(p, st, d, now) == Revoke(p, Replace(Charge(st, d.publisher, now), d), d)
  {
    CoreSchemasDiffer(p);
    hide Validate, AdmitStore, RevocationSchema, KeyRotationSchema, Rotate, Revoke, CollisionFree;
  }

  /** An accepted revocation hides its target and nothing else; the revocation itself takes its slot. */
  lemma RevocationHidesExactly(
    p: Primitives, st: State, d: Descriptor, now: Clock, target: Hash,
    x: Descriptor, key: Hash, filters: Option<FilterSet>, t: nat)
    requires CollisionFree(p) && IsRevocationOf(p, d, target) && Store(p, st, d, now).outcome.Ok?
    ensures Returned(Store(p, st, d, now).state, key, filters, t, x) <==>
      x.id != target &&
      if SlotOf(x) == SlotOf(d) then x == d && key in d.routingKeys && Keeps(Visible(st.revoked, filters, t), d)
      else Returned(st, key, filters, t, x)
  {
    hide Validate, Store, AdmitStore, Matches, Live, CollisionFree, RevocationSchema;
    AcceptedRevocation(p, st, d, now, target);
  }

  lemma AcceptedRevocation(p: Primitives, st: State, d: Descriptor, now: Clock, target: Hash)
    requires CollisionFree(p) && IsRevocationOf(p, d, target) && Store(p, st, d, now).outcome.Ok?
    ensures var replaced := Replace(Charge(st, d.publisher, now), d);
            Store(p, st, d, now).state
              == replaced.(current := Restrict(replaced.current, OtherId(target)), revoked := st.revoked + {target})
  {
    CoreSchemasDiffer(p);
    hide Validate, AdmitStore, RevocationSchema, KeyRotationSchema, Rotate, CollisionFree, Restrict;
  }

  /** The payload of a core schema that cannot be read. */
  predicate Malformed(p: Primitives, d: Descriptor) {
    if d.schemaHash == RevocationSchema(p) then p.revocationTarget(d.payload).None? else p.rotation(d.payload).None?
  }

  /** What a refusal says is so: the first check that failed, with the values that were compared. */
  lemma RefusalsSayWhy(p: Primitives, st: State, d: Descriptor, now: Clock)
    requires CollisionFree(p) && Store(p, st, d, now).outcome.Err?
    ensures var valid, recorded := Validate(p, d, now), AdmitStore(Lookup(st.windows, d.publisher), now).allowed;
            match Store(p, st, d, now).outcome.error
            case ValidationFailed(reason) => valid == Err(reason) || (PassesChecks(p, st, d, now) && Malformed(p, d))
            case RateLimited(limit) => valid.Ok? && !recorded && limit == 10
            case StaleDescriptor(received, current) =>
              && valid.Ok? && recorded && received == d.sequence && received < current
              && SlotOf(d) in st.floors && st.floors[SlotOf(d)] == current
            case RevocationPublisherMismatch =>
              && PassesChecks(p, st, d, now) && p.revocationTarget(d.payload).Some?
              && ForeignOwner(st.current[SlotOf(d) := d], p.revocationTarget(d.payload).value, d.publisher)
            case RotationForkDetected =>
              && PassesChecks(p, st, d, now) && p.rotation(d.payload).Some?
              && Conflicts(st.rotations, p.rotation(d.payload).value)
            case StaleRotation(received, current) =>
              && PassesChecks(p, st, d, now) && p.rotation(d.payload).Some?
              && received == p.rotation(d.payload).value.sequence && received < current
              && Recorded(st.rotations, p.rotation(d.payload).value.oldIdentity, current)
  {
    CoreSchemasDiffer(p);
    hide CollisionFree, Validate, AdmitStore, RevocationSchema, KeyRotationSchema, ForeignOwner, Restrict, SlotOf;
  }

  predicate Recorded(rotations: map<seq<byte>, (Identity, u64)>, who: seq<byte>, sequence: u64) {
    who in rotations && rotations[who].1 == sequence
  }

  /** The same number, and another successor. */
  predicate Conflicts(rotations: map<seq<byte>, (Identity, u64)>, r: Rotation) {
    Recorded(rotations, r.oldIdentity, r.sequence) && rotations[r.oldIdentity].0 != r.newIdentity
  }

  lemma RefusedEffect(p: Primitives, st: State, d: Descriptor, now: Clock)
    requires CollisionFree(p) && PassesChecks(p, st, d, now) && Store(p, st, d, now).outcome.Err?
    ensures var after, put := Store(p, st, d, now).state, st.current[SlotOf(d) := d];
            && after.revoked == st.revoked
            && after.current == if Malformed(p, d) then put else Restrict(put, OtherId(d.id))
  {
    StoreIsProcess(p, st, d, now);
    hide Store, PassesChecks, AdmitStore, CollisionFree, Process, Malformed, Restrict;
    ProcessRefused(p, Replace(Charge(st, d.publisher, now), d), d);
  }

  /** What passes the checks takes its slot, and then its payload is looked at. */
  lemma StoreIsProcess(p: Primitives, st: State, d: Descriptor, now: Clock)
    requires PassesChecks(p, st, d, now)
    ensures Store(p, st, d, now) == Process(p, Replace(Charge(st, d.publisher, now), d), d)
  {
    hide Validate, AdmitStore, Process;
  }

  lemma ProcessRefused(p: Primitives, st: State, d: Descriptor)
    requires CollisionFree(p) && Process(p, st, d).outcome.Err?
    ensures var after := Process(p, st, d).state;
            && after.revoked == st.revoked
            && after.current == if Malformed(p, d) then st.current else Restrict(st.current, OtherId(d.id))
  {
    CoreSchemasDiffer(p);
    hide RevocationSchema, KeyRotationSchema, ForeignOwner, Restrict, CollisionFree;
  }

  /**
   What gets return after a refusal of something that passed the checks: a malformed payload
   stands in its slot nevertheless; after a foreign revocation, a fork or a stale rotation the
   slot is empty, and its previous version is lost as well.
   */
  lemma RefusedIsExact(
    p: Primitives, st: State, d: Descriptor, now: Clock,
    x: Descriptor, key: Hash, filters: Option<FilterSet>, t: nat)
    requires CollisionFree(p) && Coherent(p, st)
    requires PassesChecks(p, st, d, now) && Store(p, st, d, now).outcome.Err?
    ensures Returned(Store(p, st, d, now).state, key, filters, t, x) <==>
      if SlotOf(x) != SlotOf(d) then Returned(st, key, filters, t, x)
      else Malformed(p, d) && x == d && key in d.routingKeys && Keeps(Visible(st.revoked, filters, t), d)
  {
    hide Store, AdmitStore, Authentic, Malformed, Coherent, CollisionFree, SlotOf, Live, Matches;
    RefusedEffect(p, st, d, now);
    ValidIsAuthentic(p, d, now);
    hide Validate;
    if SlotOf(x) != SlotOf(d) {
      if SlotOf(x) in st.current {
        OtherSlotHasOtherId(p, st, d, SlotOf(x));
      }
      KeptSlot(st.current, d, SlotOf(x));
    }
  }

  /**
   A rotation that passes the checks is accepted exactly when it is the first one of its old
   identity, a later one, or a repetition; then it is recorded, and otherwise nothing is.
   Its publisher is compared with no one.
   */
  lemma RotationAcceptedExactly(p: Primitives, st: State, d: Descriptor, now: Clock)
    requires CollisionFree(p) && d.schemaHash == KeyRotationSchema(p) && PassesChecks(p, st, d, now)
    ensures var step, parsed := Store(p, st, d, now), p.rotation(d.payload);
            && (step.outcome.Ok? <==> parsed.Some? && !RotationRefused(st.rotations, parsed.value))
            && step.state.rotations
                 == if step.outcome.Err? then st.rotations
                    else st.rotations[parsed.value.oldIdentity := (parsed.value.newIdentity, parsed.value.sequence)]
  {
    CoreSchemasDiffer(p);
    hide Validate, AdmitStore, RevocationSchema, KeyRotationSchema, Revoke, Restrict, CollisionFree;
  }
}

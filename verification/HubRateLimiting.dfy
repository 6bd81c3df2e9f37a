/** The hub's limiter: a closed window per source address or identity, and operation. */
module HubRateLimiting {
  import opened Prelude
  import opened Descriptors
  import opened SlidingWindow

  datatype Operation = Connect | Store | Query

  datatype IpAddr = V4(bits: nat) | V6(bits: nat)

  datatype RateLimitConfig = RateLimitConfig(
    ipLimits: map<Operation, u32>,
    identityLimits: map<Operation, u32>,
    windowSecs: u64)

  /** `Instant`s and durations are counted in nanoseconds. */
  const NANOS_PER_SEC := 1_000_000_000

  function Window(secs: u64): nat {
    secs * NANOS_PER_SEC
  }

  /** Twice the window, the product of the seconds wrapping around as in a release build. */
  function Cutoff(secs: u64): nat {
    2 * secs % U64_LIMIT * NANOS_PER_SEC
  }

  /** A closed window of length w has the half-open span w + 1. */
  function Span(length: nat): nat {
    length + 1
  }

  datatype RateLimitError =
    | IpRateLimited(ip: IpAddr, operation: Operation, limit: u32)
    | IdentityRateLimited(identity: Identity, limitedOperation: Operation, identityLimit: u32)

  /** What a window is kept for: a source address, or the tagged bytes of an identity. */
  datatype Client = Address(ip: IpAddr) | Key(identity: seq<byte>)

  datatype WindowKey = WindowKey(client: Client, operation: Operation)

  type Windows = map<WindowKey, seq<nat>>

  predicate Ascending(entries: seq<nat>) {
    forall i, j | 0 <= i < j < |entries| :: entries[i] <= entries[j]
  }

  predicate NotAfter(entries: seq<nat>, clock: nat) {
    forall i | 0 <= i < |entries| :: entries[i] <= clock
  }

  /** Each deque ascends, ends no later than `clock`, and holds no more than its limit. */
  ghost predicate WellKept(windows: Windows, limits: map<Operation, u32>, clock: nat) {
    forall k <- windows ::
      && Ascending(windows[k]) && NotAfter(windows[k], clock)
      && k.operation in limits && |windows[k]| <= limits[k.operation]
  }

  lemma StillWellKept(windows: Windows, limits: map<Operation, u32>, clock: nat, now: nat)
    requires WellKept(windows, limits, clock) && clock <= now
    ensures WellKept(windows, limits, now)
  {
  }

  lemma {:induction false} PruneConcat(a: seq<nat>, b: seq<nat>, now: nat, span: nat)
    ensures Prune(a + b, now, span) == Prune(a, now, span) + Prune(b, now, span)
  {
    if b == [] {
      assert a + b == a;
    } else {
      var init, last := b[..|b| - 1], b[|b| - 1];
      assert a + b == a + init + [last] && b == init + [last];
      PruneConcat(a, init, now, span);
      PruneAppend(a + init, last, now, span);
    }
  }

  lemma PruneDropsOldFront(entries: seq<nat>, now: nat, span: nat)
    requires entries != [] && Age(entries[0], now) >= span
    ensures Prune(entries[1..], now, span) == Prune(entries, now, span)
  {
    assert entries == [entries[0]] + entries[1..];
    PruneConcat([entries[0]], entries[1..], now, span);
    assert Prune([entries[0]], now, span) == [];
  }

  lemma {:induction false} PruneKeepsYoung(entries: seq<nat>, now: nat, span: nat)
    requires forall i | 0 <= i < |entries| :: Age(entries[i], now) < span
    ensures Prune(entries, now, span) == entries
  {
    if entries != [] {
      PruneKeepsYoung(entries[..|entries| - 1], now, span);
    }
  }

  /** The loop of the code: pop the front while it is older than the window. */
  method PopExpired(entries: seq<nat>, now: nat, window: nat) returns (kept: seq<nat>)
    requires Ascending(entries) && NotAfter(entries, now)
    ensures kept == Prune(entries, now, Span(window))
    ensures Ascending(kept) && NotAfter(kept, now)
  {
    hide Prune;
    var popped := 0;
    while popped < |entries| && now - entries[popped] > window
      invariant popped <= |entries|
      invariant Prune(entries[popped..], now, Span(window)) == Prune(entries, now, Span(window))
    {
      PruneDropsOldFront(entries[popped..], now, Span(window));
      popped := popped + 1;
    }
    kept := entries[popped..];
    PruneKeepsYoung(kept, now, Span(window));
  }

  method CheckWindow(
    windows: Windows, k: WindowKey, now: nat, window: nat,
    limits: map<Operation, u32>, ghost clock: nat)
    returns (newWindows: Windows, allowed: bool)
    requires k.operation in limits && WellKept(windows, limits, clock) && clock <= now
    ensures (newWindows, allowed) == AdmitKey(windows, k, now, Span(window), limits[k.operation])
    ensures WellKept(newWindows, limits, now)
  {
    var deque := if k in windows then windows[k] else [];
    deque := PopExpired(deque, now, window);
    // the comparison is made after a cast to 32 bits
    if |deque| % U32_LIMIT >= limits[k.operation] {
      return windows[k := deque], false;
    }
    return windows[k := deque + [now]], true;
  }

  method SweepWindows(
    windows: Windows, now: nat, cutoff: nat, ghost limits: map<Operation, u32>, ghost clock: nat)
    returns (swept: Windows)
    requires WellKept(windows, limits, clock) && clock <= now
    ensures swept == Swept(windows, now, Span(cutoff))
    ensures WellKept(swept, limits, now)
  {
    hide Prune;
    swept := windows;
    var todo := windows.Keys;
    while todo != {}
      invariant todo <= windows.Keys && swept.Keys <= windows.Keys && todo <= swept.Keys
      invariant forall k <- todo :: swept[k] == windows[k]
      invariant forall k <- windows | k !in todo ::
        if Prune(windows[k], now, Span(cutoff)) == [] then k !in swept
        else k in swept && swept[k] == Prune(windows[k], now, Span(cutoff))
      invariant WellKept(swept, limits, now)
      decreases |todo|
    {
      var k :| k in todo;
      var deque := PopExpired(swept[k], now, cutoff);
      swept := if deque == [] then swept - {k} else swept[k := deque];
      todo := todo - {k};
    }
  }

  // ----- what the calls do

  datatype Tables = Tables(ip: Windows, identity: Windows)

  const NO_WINDOWS: Tables := Tables(map[], map[])

  datatype Call =
    | CheckCall(ip: IpAddr, identity: Identity, operation: Operation, at: nat)
    | CleanupCall(at: nat)

  /** An operation without a limit is always allowed and not recorded. */
  function AddressVerdict(config: RateLimitConfig, windows: Windows, ip: IpAddr, op: Operation, now: nat)
    : (v: (Windows, bool))
    ensures op !in config.ipLimits ==> v == (windows, true)
  {
    if op in config.ipLimits then
      AdmitKey(windows, WindowKey(Address(ip), op), now, Span(Window(config.windowSecs)), config.ipLimits[op])
    else (windows, true)
  }

  function IdentityVerdict(
    config: RateLimitConfig, windows: Windows, identity: Identity, op: Operation, now: nat): (v: (Windows, bool))
    ensures op !in config.identityLimits ==> v == (windows, true)
  {
    if op in config.identityLimits then
      AdmitKey(windows, WindowKey(Key(IdentityBytes(identity)), op), now, Span(Window(config.windowSecs)),
               config.identityLimits[op])
    else (windows, true)
  }

  /** The identity is charged only if the address was admitted. */
  function AfterCall(config: RateLimitConfig, t: Tables, call: Call): Tables {
    match call
    case CheckCall(ip, identity, op, now) =>
      var (ipWindows, admitted) := AddressVerdict(config, t.ip, ip, op, now);
      Tables(ipWindows, if admitted then IdentityVerdict(config, t.identity, identity, op, now).0 else t.identity)
    case CleanupCall(now) =>
      Tables(Swept(t.ip, now, Span(Cutoff(config.windowSecs))), Swept(t.identity, now, Span(Cutoff(config.windowSecs))))
  }

  class HubRateLimiter {
    const config: RateLimitConfig
    var ipWindows: Windows
    var identityWindows: Windows

    constructor (config: RateLimitConfig)
      ensures this.config == config && Valid(0)
      ensures ipWindows == map[] && identityWindows == map[]
    {
      this.config := config;
      ipWindows := map[];
      identityWindows := map[];
    }

    /** `clock` is the instant of the latest call; instants never go back. */
    ghost predicate Valid(clock: nat)
      reads this
    {
      WellKept(ipWindows, config.ipLimits, clock) && WellKept(identityWindows, config.identityLimits, clock)
    }

    function Both(): Tables
      reads this
    {
      Tables(ipWindows, identityWindows)
    }

    method CheckIp(ip: IpAddr, op: Operation, now: nat, ghost clock: nat) returns (r: Outcome<RateLimitError>)
      requires Valid(clock) && clock <= now
      modifies this`ipWindows
      ensures Valid(now)
      ensures var checked := AddressVerdict(config, old(ipWindows), ip, op, now);
        ipWindows == checked.0 && r == if checked.1 then Ok else Err(IpRateLimited(ip, op, config.ipLimits[op]))
    {
      hide AdmitKey, WellKept;
      StillWellKept(identityWindows, config.identityLimits, clock, now);
      StillWellKept(ipWindows, config.ipLimits, clock, now);
      if op !in config.ipLimits {
        return Ok;
      }
      var allowed;
      ipWindows, allowed :=
        CheckWindow(ipWindows, WindowKey(Address(ip), op), now, Window(config.windowSecs), config.ipLimits, clock);
      return if allowed then Ok else Err(IpRateLimited(ip, op, config.ipLimits[op]));
    }

    method CheckIdentity(identity: Identity, op: Operation, now: nat, ghost clock: nat)
      returns (r: Outcome<RateLimitError>)
      requires Valid(clock) && clock <= now
      modifies this`identityWindows
      ensures Valid(now)
      ensures var checked := IdentityVerdict(config, old(identityWindows), identity, op, now);
        && identityWindows == checked.0
        && r == if checked.1 then Ok else Err(IdentityRateLimited(identity, op, config.identityLimits[op]))
    {
      hide AdmitKey, WellKept, IdentityBytes;
      StillWellKept(identityWindows, config.identityLimits, clock, now);
      StillWellKept(ipWindows, config.ipLimits, clock, now);
      if op !in config.identityLimits {
        return Ok;
      }
      var allowed;
      identityWindows, allowed :=
        CheckWindow(identityWindows, WindowKey(Key(IdentityBytes(identity)), op), now, Window(config.windowSecs),
                    config.identityLimits, clock);
      return if allowed then Ok else Err(IdentityRateLimited(identity, op, config.identityLimits[op]));
    }

    /** The address is charged first, and stays charged when the identity is then refused. */
    method Check(ip: IpAddr, identity: Identity, op: Operation, now: nat, ghost clock: nat)
      returns (r: Outcome<RateLimitError>)
      requires Valid(clock) && clock <= now
      modifies this
      ensures Valid(now)
      ensures var ipCheck := AddressVerdict(config, old(ipWindows), ip, op, now);
              var identityCheck := IdentityVerdict(config, old(identityWindows), identity, op, now);
              r == if !ipCheck.1 then Err(IpRateLimited(ip, op, config.ipLimits[op]))
                   else if !identityCheck.1 then Err(IdentityRateLimited(identity, op, config.identityLimits[op]))
                   else Ok
      ensures Both() == AfterCall(config, old(Both()), CheckCall(ip, identity, op, now))
    {
      hide AdmitKey, WellKept, IdentityBytes;
      r := CheckIp(ip, op, now, clock);
      if r.Ok? {
        r := CheckIdentity(identity, op, now, now);
      }
    }

    /** Drops what is older than twice the window, as far as that fits 64 bits. */
    method Cleanup(now: nat, ghost clock: nat)
      requires Valid(clock) && clock <= now
      modifies this
      ensures Valid(now)
      ensures Both() == AfterCall(config, old(Both()), CleanupCall(now))
    {
      hide Prune, Swept, WellKept;
      var ip := SweepWindows(ipWindows, now, Cutoff(config.windowSecs), config.ipLimits, clock);
      var identity := SweepWindows(identityWindows, now, Cutoff(config.windowSecs), config.identityLimits, clock);
      ipWindows, identityWindows := ip, identity;
    }
  }

  /** The limit of a window. An operation without a limit never reaches one. */
  function LimitOf(limits: map<Operation, u32>): WindowKey -> nat {
    (k: WindowKey) => if k.operation in limits then limits[k.operation] else 0
  }

  /**
   The closed window of the hub, with cleanups anywhere, decides as the complete log does.
   The events are the attempts that reach a window.
   */
  lemma CleanupChangesNoDecision(events: seq<Event<WindowKey>>, secs: u64, limits: map<Operation, u32>)
    requires Ordered(events) && 2 * secs < U64_LIMIT
    ensures PrunedRun(map[], events, Span(Window(secs)), LimitOf(limits), Span(Cutoff(secs)))
         == FullRun(map[], events, Span(Window(secs)), LimitOf(limits))
  {
    OrderedIsSteady(events, Span(Window(secs)));
    PrunedRunIsFullRun(events, Span(Window(secs)), LimitOf(limits), Span(Cutoff(secs)));
  }

  /** Cleanups never change a decision exactly when twice the window fits 64 bits. */
  lemma CleanupHarmlessExactly(k: WindowKey, secs: u64, limits: map<Operation, u32>)
    requires LimitOf(limits)(k) >= 1
    ensures (forall events: seq<Event<WindowKey>> | Ordered(events) ::
              PrunedRun(map[], events, Span(Window(secs)), LimitOf(limits), Span(Cutoff(secs)))
                == FullRun(map[], events, Span(Window(secs)), LimitOf(limits)))
       <==> 2 * secs < U64_LIMIT
  {
    SweepSpanExactly(k, Span(Window(secs)), LimitOf(limits), Span(Cutoff(secs)));
    assert 2 * secs >= U64_LIMIT ==> 2 * secs % U64_LIMIT == 2 * secs - U64_LIMIT;
  }

  // ----- clients do not influence each other

  /** A check of one address and operation leaves the verdict on every other as it was. */
  lemma AddressesDoNotInterfere(
    config: RateLimitConfig, w: Windows, ip: IpAddr, op: Operation, now: nat, ip': IpAddr, op': Operation, now': nat)
    requires ip != ip' || op != op'
    ensures AddressVerdict(config, AddressVerdict(config, w, ip, op, now).0, ip', op', now').1
         == AddressVerdict(config, w, ip', op', now').1
  {
    hide Admit;
  }

  lemma IdentitiesDoNotInterfere(
    config: RateLimitConfig, w: Windows, identity: Identity, op: Operation, now: nat,
    identity': Identity, op': Operation, now': nat)
    requires identity != identity' || op != op'
    ensures IdentityVerdict(config, IdentityVerdict(config, w, identity, op, now).0, identity', op', now').1
         == IdentityVerdict(config, w, identity', op', now').1
  {
    IdentityBytesInjective(identity, identity');
    hide Admit, IdentityBytes;
  }

  /** The instants recorded for a window that are no more than `secs` seconds old. */
  function Recent(windows: Windows, k: WindowKey, now: nat, secs: u64): set<nat> {
    set i: nat | i < |Lookup(windows, k)| && now <= Lookup(windows, k)[i] + secs * 1_000_000_000
  }

  /** An address is admitted when its window of the operation, and no other, holds fewer instants than the limit. */
  lemma AddressAllowedExactly(config: RateLimitConfig, w: Windows, ip: IpAddr, op: Operation, now: nat)
    ensures AddressVerdict(config, w, ip, op, now).1 <==>
      (op in config.ipLimits ==>
         |Recent(w, WindowKey(Address(ip), op), now, config.windowSecs)| < config.ipLimits[op])
  {
    var k := WindowKey(Address(ip), op);
    KeptExactly(Lookup(w, k), now, Span(Window(config.windowSecs)));
    assert Covered(Lookup(w, k), now, Span(Window(config.windowSecs))) == Recent(w, k, now, config.windowSecs);
    hide Prune;
  }

  lemma IdentityAllowedExactly(config: RateLimitConfig, w: Windows, identity: Identity, op: Operation, now: nat)
    ensures var k := WindowKey(Key([identity.algorithm] + identity.publicKey), op);
            IdentityVerdict(config, w, identity, op, now).1 <==>
      (op in config.identityLimits ==> |Recent(w, k, now, config.windowSecs)| < config.identityLimits[op])
  {
    var k := WindowKey(Key(IdentityBytes(identity)), op);
    KeptExactly(Lookup(w, k), now, Span(Window(config.windowSecs)));
    assert Covered(Lookup(w, k), now, Span(Window(config.windowSecs))) == Recent(w, k, now, config.windowSecs);
    hide Prune;
  }

  predicate OrderedCalls(calls: seq<Call>) {
    forall i, j | 0 <= i < j < |calls| :: calls[i].at <= calls[j].at
  }

  predicate IsCheckOf(call: Call, ip: IpAddr, op: Operation) {
    call.CheckCall? && call.ip == ip && call.operation == op
  }

  /** The verdicts of a run of calls on one address and operation. */
  function AddressDecisions(
    config: RateLimitConfig, t: Tables, calls: seq<Call>, ip: IpAddr, op: Operation): seq<bool>
    decreases |calls|
  {
    if calls == [] then []
    else
      (if IsCheckOf(calls[0], ip, op) then [AddressVerdict(config, t.ip, ip, op, calls[0].at).1] else [])
      + AddressDecisions(config, AfterCall(config, t, calls[0]), calls[1..], ip, op)
  }

  function AddressTimes(calls: seq<Call>, ip: IpAddr, op: Operation): seq<nat>
    decreases |calls|
  {
    if calls == [] then []
    else (if IsCheckOf(calls[0], ip, op) then [calls[0].at] else []) + AddressTimes(calls[1..], ip, op)
  }

  /** What a call is to the windows of the addresses. */
  function AddressEvent(config: RateLimitConfig, call: Call): seq<Event<WindowKey>> {
    match call
    case CheckCall(ip, _, op, now) =>
      if op in config.ipLimits then [Attempt(WindowKey(Address(ip), op), now)] else []
    case CleanupCall(now) => [Sweep(now)]
  }

  function AddressEvents(config: RateLimitConfig, calls: seq<Call>): seq<Event<WindowKey>>
    decreases |calls|
  {
    if calls == [] then [] else AddressEvent(config, calls[0]) + AddressEvents(config, calls[1..])
  }

  lemma {:induction false} AddressEventsOrdered(config: RateLimitConfig, calls: seq<Call>)
    requires OrderedCalls(calls)
    ensures Ordered(AddressEvents(config, calls))
    ensures forall e <- AddressEvents(config, calls) :: exists c <- calls :: e.at == c.at
    decreases |calls|
  {
    if calls != [] {
      AddressEventsOrdered(config, calls[1..]);
      var rest := AddressEvents(config, calls[1..]);
      forall e <- rest ensures calls[0].at <= e.at && exists c <- calls :: e.at == c.at {
        var c :| c in calls[1..] && e.at == c.at;
        assert c in calls;
      }
      OrderedCons(AddressEvent(config, calls[0]), rest, calls[0].at);
    }
  }

  lemma OrderedCons(first: seq<Event<WindowKey>>, rest: seq<Event<WindowKey>>, at: nat)
    requires |first| <= 1 && (first != [] ==> first[0].at == at)
    requires Ordered(rest) && forall e <- rest :: at <= e.at
    ensures Ordered(first + rest)
  {
    var all := first + rest;
    forall i, j | 0 <= i < j < |all| ensures all[i].at <= all[j].at {
      assert all[j] in rest;
    }
  }

  /** The run of calls is a run of the windows of the addresses. */
  lemma {:induction false} AddressRun(
    config: RateLimitConfig, t: Tables, calls: seq<Call>, ip: IpAddr, op: Operation)
    requires op in config.ipLimits
    ensures var k, events := WindowKey(Address(ip), op), AddressEvents(config, calls);
            && AttemptTimes(k, events) == AddressTimes(calls, ip, op)
            && AddressDecisions(config, t, calls, ip, op)
                 == DecisionsOf(k, events, HubPrunedRun(config, t.ip, events, config.ipLimits))
    decreases |calls|
  {
    if calls != [] {
      AddressRun(config, AfterCall(config, t, calls[0]), calls[1..], ip, op);
      var rest := AddressEvents(config, calls[1..]);
      var event := AddressEvent(config, calls[0]);
      if event == [] {
        assert event + rest == rest;
      } else {
        EventStep(config, t.ip, event[0], rest, config.ipLimits, WindowKey(Address(ip), op));
        assert event == [event[0]];
      }
      hide AdmitKey, Swept, PrunedRun, DecisionsOf, AttemptTimes, HubPrunedRun;
    }
  }

  function HubPrunedRun(
    config: RateLimitConfig, windows: Windows, events: seq<Event<WindowKey>>, limits: map<Operation, u32>): seq<bool>
  {
    PrunedRun(windows, events, Span(Window(config.windowSecs)), LimitOf(limits), Span(Cutoff(config.windowSecs)))
  }

  function SweptAt(config: RateLimitConfig, windows: Windows, now: nat): Windows {
    Swept(windows, now, Span(Cutoff(config.windowSecs)))
  }

  function AttemptAt(
    config: RateLimitConfig, windows: Windows, event: Event<WindowKey>, limits: map<Operation, u32>): (Windows, bool)
    requires event.Attempt? && event.who.operation in limits
  {
    AdmitKey(windows, event.who, event.at, Span(Window(config.windowSecs)), limits[event.who.operation])
  }

  /** The first event of a run, and the rest. */
  lemma EventStep(
    config: RateLimitConfig, windows: Windows, event: Event<WindowKey>, rest: seq<Event<WindowKey>>,
    limits: map<Operation, u32>, k: WindowKey)
    requires event.Attempt? ==> event.who.operation in limits
    ensures AttemptTimes(k, [event] + rest)
         == (if event.Attempt? && event.who == k then [event.at] else []) + AttemptTimes(k, rest)
    ensures var decisions := HubPrunedRun(config, windows, [event] + rest, limits);
            DecisionsOf(k, [event] + rest, decisions) ==
              if event.Sweep? then
                DecisionsOf(k, rest, HubPrunedRun(config, SweptAt(config, windows, event.at), rest, limits))
              else
                (if event.who == k then [AttemptAt(config, windows, event, limits).1] else [])
                + DecisionsOf(k, rest, HubPrunedRun(config, AttemptAt(config, windows, event, limits).0, rest, limits))
  {
    hide AdmitKey, Swept;
    assert ([event] + rest)[1..] == rest;
    if event.Attempt? {
      var (next, allowed) := AttemptAt(config, windows, event, limits);
      var decisions := HubPrunedRun(config, windows, [event] + rest, limits);
      assert decisions == [allowed] + HubPrunedRun(config, next, rest, limits);
      assert decisions[1..] == HubPrunedRun(config, next, rest, limits);
    }
  }

  /** Over any run of checks and cleanups, an address is judged, operation by operation, as if it were alone. */
  lemma AddressJudgedAlone(config: RateLimitConfig, calls: seq<Call>, ip: IpAddr, op: Operation)
    requires OrderedCalls(calls) && 2 * config.windowSecs < U64_LIMIT && op in config.ipLimits
    ensures AddressDecisions(config, NO_WINDOWS, calls, ip, op)
         == Alone([], AddressTimes(calls, ip, op), Span(Window(config.windowSecs)), config.ipLimits[op])
  {
    var k, events := WindowKey(Address(ip), op), AddressEvents(config, calls);
    var none: Windows := map[];
    AddressRun(config, NO_WINDOWS, calls, ip, op);
    AddressEventsOrdered(config, calls);
    CleanupChangesNoDecision(events, config.windowSecs, config.ipLimits);
    FullRunIsAlone(none, k, events, Span(Window(config.windowSecs)), LimitOf(config.ipLimits));
    hide AddressEvents, AddressDecisions, AttemptTimes, DecisionsOf, Alone, PrunedRun, FullRun, AddressTimes;
  }

  // ----- the same for identities, of which only calls with an admitted address are seen

  predicate ReachesIdentity(config: RateLimitConfig, t: Tables, call: Call) {
    call.CheckCall? && AddressVerdict(config, t.ip, call.ip, call.operation, call.at).1
  }

  predicate IsCheckFor(call: Call, identity: Identity, op: Operation) {
    call.CheckCall? && call.identity == identity && call.operation == op
  }

  function IdentityDecisions(
    config: RateLimitConfig, t: Tables, calls: seq<Call>, identity: Identity, op: Operation): seq<bool>
    decreases |calls|
  {
    if calls == [] then []
    else
      (if IsCheckFor(calls[0], identity, op) && ReachesIdentity(config, t, calls[0]) then
         [IdentityVerdict(config, t.identity, identity, op, calls[0].at).1] else [])
      + IdentityDecisions(config, AfterCall(config, t, calls[0]), calls[1..], identity, op)
  }

  function IdentityTimes(
    config: RateLimitConfig, t: Tables, calls: seq<Call>, identity: Identity, op: Operation): seq<nat>
    decreases |calls|
  {
    if calls == [] then []
    else
      (if IsCheckFor(calls[0], identity, op) && ReachesIdentity(config, t, calls[0]) then [calls[0].at] else [])
      + IdentityTimes(config, AfterCall(config, t, calls[0]), calls[1..], identity, op)
  }

  function IdentityEvent(config: RateLimitConfig, t: Tables, call: Call): seq<Event<WindowKey>> {
    match call
    case CheckCall(_, identity, op, now) =>
      if ReachesIdentity(config, t, call) && op in config.identityLimits then
        [Attempt(WindowKey(Key(IdentityBytes(identity)), op), now)] else []
    case CleanupCall(now) => [Sweep(now)]
  }

  function IdentityEvents(config: RateLimitConfig, t: Tables, calls: seq<Call>): seq<Event<WindowKey>>
    decreases |calls|
  {
    if calls == [] then []
    else IdentityEvent(config, t, calls[0]) + IdentityEvents(config, AfterCall(config, t, calls[0]), calls[1..])
  }

  lemma {:induction false} IdentityEventsOrdered(config: RateLimitConfig, t: Tables, calls: seq<Call>)
    requires OrderedCalls(calls)
    ensures Ordered(IdentityEvents(config, t, calls))
    ensures forall e <- IdentityEvents(config, t, calls) :: exists c <- calls :: e.at == c.at
    decreases |calls|
  {
    hide AddressVerdict, AfterCall, IdentityBytes;
    if calls != [] {
      var rest := IdentityEvents(config, AfterCall(config, t, calls[0]), calls[1..]);
      IdentityEventsOrdered(config, AfterCall(config, t, calls[0]), calls[1..]);
      forall e <- rest ensures calls[0].at <= e.at && exists c <- calls :: e.at == c.at {
        var c :| c in calls[1..] && e.at == c.at;
        assert c in calls;
      }
      OrderedCons(IdentityEvent(config, t, calls[0]), rest, calls[0].at);
    }
  }

  /** One call, and the events of those after it. */
  lemma IdentityStep(
    config: RateLimitConfig, t: Tables, call: Call, rest: seq<Event<WindowKey>>, identity: Identity, op: Operation)
    requires op in config.identityLimits
    ensures var k, events := WindowKey(Key(IdentityBytes(identity)), op), IdentityEvent(config, t, call) + rest;
            var judged := IsCheckFor(call, identity, op) && ReachesIdentity(config, t, call);
            && AttemptTimes(k, events) == (if judged then [call.at] else []) + AttemptTimes(k, rest)
            && DecisionsOf(k, events, HubPrunedRun(config, t.identity, events, config.identityLimits))
                 == (if judged then [IdentityVerdict(config, t.identity, identity, op, call.at).1] else [])
                    + DecisionsOf(k, rest, HubPrunedRun(config, AfterCall(config, t, call).identity, rest,
                                                        config.identityLimits))
  {
    hide IdentityBytes, AddressVerdict, AdmitKey, Swept, PrunedRun, DecisionsOf, AttemptTimes, HubPrunedRun;
    if call.CheckCall? {
      IdentityBytesInjective(call.identity, identity);
    }
    var event := IdentityEvent(config, t, call);
    if event == [] {
      assert event + rest == rest;
    } else {
      var k := WindowKey(Key(IdentityBytes(identity)), op);
      EventStep(config, t.identity, event[0], rest, config.identityLimits, k);
      assert event == [event[0]];
    }
  }

  lemma {:induction false} IdentityRun(
    config: RateLimitConfig, t: Tables, calls: seq<Call>, identity: Identity, op: Operation)
    requires op in config.identityLimits
    ensures var k, events := WindowKey(Key(IdentityBytes(identity)), op), IdentityEvents(config, t, calls);
            && AttemptTimes(k, events) == IdentityTimes(config, t, calls, identity, op)
            && IdentityDecisions(config, t, calls, identity, op)
                 == DecisionsOf(k, events, HubPrunedRun(config, t.identity, events, config.identityLimits))
    decreases |calls|
  {
    hide IdentityBytes, AddressVerdict, IdentityVerdict, AfterCall, HubPrunedRun, IdentityEvent, ReachesIdentity;
    if calls != [] {
      var next := AfterCall(config, t, calls[0]);
      IdentityRun(config, next, calls[1..], identity, op);
      hide DecisionsOf, AttemptTimes;
      IdentityStep(config, t, calls[0], IdentityEvents(config, next, calls[1..]), identity, op);
    }
  }

  /** Of the checks whose address was admitted, an identity is judged, operation by operation, as if it were alone. */
  lemma IdentityJudgedAlone(config: RateLimitConfig, calls: seq<Call>, identity: Identity, op: Operation)
    requires OrderedCalls(calls) && 2 * config.windowSecs < U64_LIMIT && op in config.identityLimits
    ensures IdentityDecisions(config, NO_WINDOWS, calls, identity, op)
         == Alone([], IdentityTimes(config, NO_WINDOWS, calls, identity, op), Span(Window(config.windowSecs)),
                  config.identityLimits[op])
  {
    var k, events := WindowKey(Key(IdentityBytes(identity)), op), IdentityEvents(config, NO_WINDOWS, calls);
    var none: Windows := map[];
    IdentityRun(config, NO_WINDOWS, calls, identity, op);
    IdentityEventsOrdered(config, NO_WINDOWS, calls);
    CleanupChangesNoDecision(events, config.windowSecs, config.identityLimits);
    FullRunIsAlone(none, k, events, Span(Window(config.windowSecs)), LimitOf(config.identityLimits));
    hide IdentityEvents, IdentityDecisions, AttemptTimes, DecisionsOf, Alone, PrunedRun, FullRun, IdentityTimes;
  }
}

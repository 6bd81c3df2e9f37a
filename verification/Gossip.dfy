/**
 Gossip between hubs, STORE by STORE: stored descriptors are offered to peers, which keep
 the highest sequence of each slot. When delivery order matters, why quiet networks agree,
 when single STOREs come to rest, and what one round of fifty brings across.
 */
module Gossip {
  import opened Prelude
  import opened Descriptors
  import opened RedbTables

  const MAX_GOSSIP_BATCH := 50

  /** What a peer's valid STORE does to the receiver's slots, the rate limit being skipped. */
  function Deliver(p: Primitives, m: SlotMap, d: Descriptor): SlotMap {
    if Stale(p, m, d) then m else m[DedupKey(p, d) := d]
  }

  function DeliverAll(p: Primitives, m: SlotMap, ds: seq<Descriptor>): SlotMap {
    if ds == [] then m else Deliver(p, DeliverAll(p, m, ds[..|ds| - 1]), ds[|ds| - 1])
  }

  ghost function Members(ds: seq<Descriptor>): set<Descriptor> {
    set d | d in ds
  }

  /** No descriptor of its slot has a higher sequence. */
  ghost predicate Top(p: Primitives, s: set<Descriptor>, d: Descriptor) {
    d in s && forall e <- s :: DedupKey(p, e) == DedupKey(p, d) ==> e.sequence <= d.sequence
  }

  /** Each slot has one descriptor of the highest sequence; below it publishers may have numbered as they liked. */
  ghost predicate TopUnique(p: Primitives, s: set<Descriptor>) {
    forall d <- s, e <- s :: Top(p, s, d) && Top(p, s, e) && DedupKey(p, d) == DedupKey(p, e) ==> d == e
  }

  /** Of each slot that occurs in `s`, the map holds a member of `s` with the highest sequence. */
  ghost predicate Best(p: Primitives, m: SlotMap, s: set<Descriptor>) {
    && (forall d <- s :: DedupKey(p, d) in m && d.sequence <= m[DedupKey(p, d)].sequence)
    && (forall dk <- m :: m[dk] in s && DedupKey(p, m[dk]) == dk)
  }

  lemma DeliverIsHubStore(p: Primitives, hub: HubState, d: Descriptor, now: Clock)
    requires Validate(p, d, now).Ok?
    ensures HubStore(p, hub, d, now, true).state == hub.(slots := Deliver(p, hub.slots, d))
  {
    hide Validate;
  }

  lemma DeliverKeepsBest(p: Primitives, m: SlotMap, s: set<Descriptor>, d: Descriptor)
    requires Best(p, m, s)
    ensures Best(p, Deliver(p, m, d), s + {d})
  {
    hide DedupKey;
  }

  lemma BestIsTop(p: Primitives, m: SlotMap, s: set<Descriptor>, dk: seq<byte>)
    requires Best(p, m, s) && dk in m
    ensures Top(p, s, m[dk]) && DedupKey(p, m[dk]) == dk
  {
    hide DedupKey;
  }

  lemma BestUnique(p: Primitives, m: SlotMap, m': SlotMap, s: set<Descriptor>)
    requires TopUnique(p, s) && Best(p, m, s) && Best(p, m', s)
    ensures m == m'
  {
    hide DedupKey, Top;
    forall dk ensures dk in m <==> dk in m' {
    }
    forall dk <- m ensures m[dk] == m'[dk] {
      BestIsTop(p, m, s, dk);
      BestIsTop(p, m', s, dk);
    }
  }

  lemma {:induction false} DeliverAllBest(p: Primitives, m: SlotMap, s: set<Descriptor>, ds: seq<Descriptor>)
    requires Best(p, m, s)
    ensures Best(p, DeliverAll(p, m, ds), s + Members(ds))
  {
    hide Best, Deliver;
    if ds == [] {
      assert s + Members(ds) == s;
    } else {
      var init, last := ds[..|ds| - 1], ds[|ds| - 1];
      DeliverAllBest(p, m, s, init);
      DeliverKeepsBest(p, DeliverAll(p, m, init), s + Members(init), last);
      assert ds == init + [last];
      assert s + Members(ds) == s + Members(init) + {last};
    }
  }

  lemma EmptyIsBest(p: Primitives)
    ensures Best(p, map[], {})
  {
  }

  lemma DeliveredIsBest(p: Primitives, ds: seq<Descriptor>)
    ensures Best(p, DeliverAll(p, map[], ds), Members(ds))
  {
    hide Best, DeliverAll;
    EmptyIsBest(p);
    DeliverAllBest(p, map[], {}, ds);
    assert {} + Members(ds) == Members(ds);
  }

  ghost predicate OrderIrrelevant(p: Primitives, s: set<Descriptor>) {
    forall a: seq<Descriptor>, b: seq<Descriptor> | Members(a) == s && Members(b) == s ::
      DeliverAll(p, map[], a) == DeliverAll(p, map[], b)
  }

  /**
   All orders of the same deliveries, with any repetitions, end alike exactly when each slot
   has one highest descriptor.
   */
  lemma DeliveryOrderExactly(p: Primitives, s: set<Descriptor>)
    ensures OrderIrrelevant(p, s) <==> TopUnique(p, s)
  {
    hide Best, DeliverAll, DedupKey, Top;
    if TopUnique(p, s) {
      forall a: seq<Descriptor>, b: seq<Descriptor> | Members(a) == s && Members(b) == s
        ensures DeliverAll(p, map[], a) == DeliverAll(p, map[], b)
      {
        DeliveredIsBest(p, a);
        DeliveredIsBest(p, b);
        BestUnique(p, DeliverAll(p, map[], a), DeliverAll(p, map[], b), s);
      }
    } else {
      var d, e :| d in s && e in s && Top(p, s, d) && Top(p, s, e) && DedupKey(p, d) == DedupKey(p, e) && d != e;
      var all := Listing(s);
      LastTopStays(p, s, all, d);
      LastTopStays(p, s, all, e);
    }
  }

  lemma {:induction false} Listing(s: set<Descriptor>) returns (all: seq<Descriptor>)
    ensures Members(all) == s
  {
    if s == {} {
      return [];
    }
    var d :| d in s;
    var others := Listing(s - {d});
    all := others + [d];
    assert s == (s - {d}) + {d};
    assert Members(all) == Members(others) + {d};
  }

  /** A highest descriptor that is delivered last is the one that stays. */
  lemma LastTopStays(p: Primitives, s: set<Descriptor>, all: seq<Descriptor>, d: Descriptor)
    requires Members(all) == s && Top(p, s, d)
    ensures Members(all + [d]) == s
    ensures var m := DeliverAll(p, map[], all + [d]);
            DedupKey(p, d) in m && m[DedupKey(p, d)] == d
  {
    hide DedupKey;
    var before := DeliverAll(p, map[], all);
    assert (all + [d])[..|all|] == all;
    assert DeliverAll(p, map[], all + [d]) == Deliver(p, before, d);
    hide DeliverAll;
    DeliveredIsBest(p, all);
  }

  /** Any two orders of such deliveries leave the same four tables. */
  lemma DeliveryOrderIrrelevant(
    p: Primitives, ds: seq<Descriptor>, ds': seq<Descriptor>, t: Tables, t': Tables)
    requires Members(ds) == Members(ds') && TopUnique(p, Members(ds))
    requires Represents(p, t, DeliverAll(p, map[], ds)) && Represents(p, t', DeliverAll(p, map[], ds'))
    ensures t == t'
    ensures Best(p, DeliverAll(p, map[], ds), Members(ds))
  {
    hide Best, DeliverAll, TopUnique, Represents;
    DeliveryOrderExactly(p, Members(ds));
    DeliveredIsBest(p, ds);
    TablesDetermined(p, t, t', DeliverAll(p, map[], ds));
  }

  // ----- a network of hubs

  /**
   A client publishes to a hub, or one hub sends a descriptor it holds to another: the steps
   that the rounds of the code are made of, with whatever is lost on the way left out.
   */
  datatype NetStep = Publish(hub: nat, d: Descriptor) | Send(sender: nat, hub: nat, d: Descriptor)

  type Net = seq<SlotMap>

  predicate Possible(net: Net, step: NetStep) {
    && step.hub < |net|
    && (step.Send? ==> step.sender < |net| && exists dk <- net[step.sender] :: net[step.sender][dk] == step.d)
  }

  function NetNext(p: Primitives, net: Net, step: NetStep): Net
    requires step.hub < |net|
  {
    net[step.hub := Deliver(p, net[step.hub], step.d)]
  }

  ghost predicate NetRun(p: Primitives, net: Net, steps: seq<NetStep>, end: Net)
    decreases |steps|
  {
    if steps == [] then end == net
    else Possible(net, steps[0]) && NetRun(p, NetNext(p, net, steps[0]), steps[1..], end)
  }

  ghost function Published(steps: seq<NetStep>): set<Descriptor> {
    set i | 0 <= i < |steps| && steps[i].Publish? :: steps[i].d
  }

  /** Each hub holds the best of what it has received, all of it known to the network. */
  ghost predicate Tracks(p: Primitives, net: Net, received: seq<set<Descriptor>>, known: set<Descriptor>) {
    && |received| == |net|
    && (forall i | 0 <= i < |net| :: Best(p, net[i], received[i]) && received[i] <= known)
    && (forall d <- known :: exists i | 0 <= i < |net| :: d in received[i])
  }

  lemma HeldWasReceived(p: Primitives, m: SlotMap, s: set<Descriptor>, dk: seq<byte>)
    requires Best(p, m, s) && dk in m
    ensures m[dk] in s
  {
  }

  lemma StepTracks(
    p: Primitives, net: Net, step: NetStep, received: seq<set<Descriptor>>, known: set<Descriptor>)
    requires Tracks(p, net, received, known) && Possible(net, step)
    ensures step.hub < |net| == |received|
    ensures Tracks(p, NetNext(p, net, step), received[step.hub := received[step.hub] + {step.d}],
                   if step.Publish? then known + {step.d} else known)
  {
    hide Deliver, DedupKey, Best;
    var received' := received[step.hub := received[step.hub] + {step.d}];
    var known' := if step.Publish? then known + {step.d} else known;
    DeliverKeepsBest(p, net[step.hub], received[step.hub], step.d);
    if step.Send? {
      var dk :| dk in net[step.sender] && net[step.sender][dk] == step.d;
      HeldWasReceived(p, net[step.sender], received[step.sender], dk);
    }
    assert step.d in known';
    forall d <- known' ensures exists i | 0 <= i < |net| :: d in received'[i] {
      if d == step.d {
        assert d in received'[step.hub];
      } else {
        var i :| 0 <= i < |net| && d in received[i];
        assert d in received'[i];
      }
    }
  }

  lemma {:induction false} RunTracks(
    p: Primitives, net: Net, steps: seq<NetStep>, end: Net, received: seq<set<Descriptor>>, known: set<Descriptor>)
    returns (received': seq<set<Descriptor>>)
    requires Tracks(p, net, received, known) && NetRun(p, net, steps, end)
    ensures Tracks(p, end, received', known + Published(steps))
    decreases |steps|
  {
    hide Tracks, Possible, NetNext;
    if steps == [] {
      assert known + Published(steps) == known;
      return received;
    }
    var step, rest := steps[0], steps[1..];
    StepTracks(p, net, step, received, known);
    var known' := if step.Publish? then known + {step.d} else known;
    received' := RunTracks(p, NetNext(p, net, step), rest, end,
                           received[step.hub := received[step.hub] + {step.d}], known');
    PublishedCons(step, rest);
    assert steps == [step] + rest;
    assert known' + Published(rest) == known + Published(steps);
  }

  lemma PublishedCons(step: NetStep, rest: seq<NetStep>)
    ensures Published([step] + rest) == (if step.Publish? then {step.d} else {}) + Published(rest)
  {
    var all := [step] + rest;
    forall d <- Published(rest) ensures d in Published(all) {
      var i :| 0 <= i < |rest| && rest[i].Publish? && rest[i].d == d;
      assert all[i + 1] == rest[i];
    }
    if step.Publish? {
      assert all[0] == step;
    }
  }

  function EmptyNet(hubs: nat): (net: Net)
    ensures |net| == hubs
  {
    seq(hubs, _ => map[])
  }

  /** No offer of any hub to any other changes anything. */
  ghost predicate Quiet(p: Primitives, net: Net) {
    forall i, j, dk | 0 <= i < |net| && 0 <= j < |net| && dk in net[i] ::
      Deliver(p, net[j], net[i][dk]) == net[j]
  }

  lemma RefusedOfferIsCovered(p: Primitives, m: SlotMap, d: Descriptor)
    requires Deliver(p, m, d) == m
    ensures DedupKey(p, d) in m && d.sequence <= m[DedupKey(p, d)].sequence
  {
    hide DedupKey;
    if !Stale(p, m, d) {
      assert m[DedupKey(p, d)] == d;
    }
  }

  lemma BestAt(p: Primitives, m: SlotMap, s: set<Descriptor>, d: Descriptor)
    requires Best(p, m, s) && d in s
    ensures DedupKey(p, d) in m && d.sequence <= m[DedupKey(p, d)].sequence
    ensures DedupKey(p, m[DedupKey(p, d)]) == DedupKey(p, d)
  {
    hide DedupKey;
  }

  /** What one hub received, every hub of a quiet network covers. */
  lemma QuietHubCovers(
    p: Primitives, net: Net, received: seq<set<Descriptor>>, known: set<Descriptor>, j: nat, d: Descriptor)
    requires Tracks(p, net, received, known) && Quiet(p, net) && j < |net| && d in known
    ensures DedupKey(p, d) in net[j] && d.sequence <= net[j][DedupKey(p, d)].sequence
  {
    hide DedupKey, Deliver, Best;
    var i :| 0 <= i < |net| && d in received[i];
    BestAt(p, net[i], received[i], d);
    RefusedOfferIsCovered(p, net[j], net[i][DedupKey(p, d)]);
  }

  lemma QuietHubHoldsBest(
    p: Primitives, net: Net, received: seq<set<Descriptor>>, known: set<Descriptor>, j: nat)
    requires Tracks(p, net, received, known) && Quiet(p, net) && j < |net|
    ensures Best(p, net[j], known)
  {
    hide DedupKey, Quiet;
    assert Best(p, net[j], received[j]);
    forall d <- known ensures DedupKey(p, d) in net[j] && d.sequence <= net[j][DedupKey(p, d)].sequence {
      QuietHubCovers(p, net, received, known, j, d);
    }
  }

  /**
   Convergence: after any run of publications and sends, in any order and with any losses,
   a quiet network of hubs holds one and the same slot map, with the highest sequence of
   every slot that was ever published anywhere.
   */
  lemma QuietNetworksAgree(p: Primitives, hubs: nat, steps: seq<NetStep>, end: Net, i: nat, j: nat)
    requires NetRun(p, EmptyNet(hubs), steps, end) && Quiet(p, end)
    requires i < |end| && j < |end|
    ensures Best(p, end[i], Published(steps)) && end[i] == end[j]
  {
    hide NetRun, Quiet, Best;
    var none: seq<set<Descriptor>> := seq(hubs, _ => {});
    EmptyIsBest(p);
    assert Tracks(p, EmptyNet(hubs), none, {});
    hide Tracks;
    var received := RunTracks(p, EmptyNet(hubs), steps, end, none, {});
    assert {} + Published(steps) == Published(steps);
    QuietHubHoldsBest(p, end, received, Published(steps), i);
    QuietHubHoldsBest(p, end, received, Published(steps), j);
    QuietHubsEqual(p, end, i, j, Published(steps));
  }

  /** Two hubs that refuse each other's offers hold the same, even of descriptors with one sequence. */
  lemma QuietHubsEqual(p: Primitives, net: Net, i: nat, j: nat, s: set<Descriptor>)
    requires Quiet(p, net) && i < |net| && j < |net|
    requires Best(p, net[i], s) && Best(p, net[j], s)
    ensures net[i] == net[j]
  {
    hide DedupKey, Deliver, Top;
    forall dk ensures dk in net[i] <==> dk in net[j] {
      hide Quiet;
    }
    forall dk <- net[i] ensures net[i][dk] == net[j][dk] {
      BestIsTop(p, net[i], s, dk);
      BestIsTop(p, net[j], s, dk);
      RefusedTopIsHeld(p, net[j], s, net[i][dk]);
    }
  }

  /** A hub that refuses a highest descriptor holds that very one. */
  lemma RefusedTopIsHeld(p: Primitives, m: SlotMap, s: set<Descriptor>, d: Descriptor)
    requires Best(p, m, s) && Top(p, s, d) && Deliver(p, m, d) == m
    ensures DedupKey(p, d) in m && m[DedupKey(p, d)] == d
  {
    hide DedupKey;
    BestAt(p, m, s, d);
    assert m[DedupKey(p, d)] in s;
    assert !Stale(p, m, d);
    assert m[DedupKey(p, d) := d][DedupKey(p, d)] == d;
  }

  // ----- when gossip comes to rest

  /** One descriptor per slot and sequence, as publishers are meant to number them. */
  ghost predicate ConflictFree(p: Primitives, s: set<Descriptor>) {
    forall d <- s, e <- s :: DedupKey(p, d) == DedupKey(p, e) && d.sequence == e.sequence ==> d == e
  }

  predicate Covers(p: Primitives, m: SlotMap, d: Descriptor) {
    DedupKey(p, d) in m && d.sequence <= m[DedupKey(p, d)].sequence
  }

  ghost function Missing(p: Primitives, m: SlotMap, all: set<Descriptor>): set<Descriptor> {
    set d <- all | !Covers(p, m, d)
  }

  ghost predicate Within(p: Primitives, m: SlotMap, all: set<Descriptor>) {
    forall dk <- m :: m[dk] in all && DedupKey(p, m[dk]) == dk
  }

  /** A delivery that changes a hub settles at least one descriptor for good. */
  lemma EffectiveDeliverySettles(p: Primitives, m: SlotMap, all: set<Descriptor>, d: Descriptor)
    requires ConflictFree(p, all) && Within(p, m, all) && d in all
    ensures Within(p, Deliver(p, m, d), all)
    ensures Deliver(p, m, d) != m ==> |Missing(p, Deliver(p, m, d), all)| < |Missing(p, m, all)|
  {
    hide DedupKey;
    var m' := Deliver(p, m, d);
    if m' != m {
      assert d in Missing(p, m, all) && d !in Missing(p, m', all);
      Shrinks(Missing(p, m', all), Missing(p, m, all), d);
    }
  }

  lemma Shrinks<T>(a: set<T>, b: set<T>, x: T)
    requires a <= b && x in b && x !in a
    ensures |a| < |b|
  {
    assert b == a + (b - a);
    assert x in b - a;
  }

  ghost function TotalMissing(p: Primitives, net: Net, all: set<Descriptor>): nat {
    if net == [] then 0 else |Missing(p, net[0], all)| + TotalMissing(p, net[1..], all)
  }

  lemma {:induction false} TotalMissingUpdate(p: Primitives, net: Net, all: set<Descriptor>, i: nat, m: SlotMap)
    requires i < |net|
    ensures TotalMissing(p, net[i := m], all) + |Missing(p, net[i], all)|
         == TotalMissing(p, net, all) + |Missing(p, m, all)|
  {
    hide Missing;
    var net' := net[i := m];
    if i == 0 {
      assert net'[1..] == net[1..];
    } else {
      assert net'[1..] == net[1..][i - 1 := m];
      TotalMissingUpdate(p, net[1..], all, i - 1, m);
    }
  }

  /** The number of steps that change the hub they reach. */
  ghost function Effective(p: Primitives, net: Net, steps: seq<NetStep>): nat
    decreases |steps|
  {
    if steps == [] || steps[0].hub >= |net| then 0
    else
      var next := NetNext(p, net, steps[0]);
      (if next != net then 1 else 0) + Effective(p, next, steps[1..])
  }

  lemma StepSettles(p: Primitives, net: Net, step: NetStep, all: set<Descriptor>)
    requires ConflictFree(p, all) && Possible(net, step) && (step.Publish? ==> step.d in all)
    requires forall i | 0 <= i < |net| :: Within(p, net[i], all)
    ensures var next := NetNext(p, net, step);
            && |next| == |net| && (forall i | 0 <= i < |next| :: Within(p, next[i], all))
            && TotalMissing(p, next, all) + (if next != net then 1 else 0) <= TotalMissing(p, net, all)
  {
    hide Deliver, ConflictFree, Missing, TotalMissing;
    if step.Send? {
      assert Within(p, net[step.sender], all);
    }
    hide Within;
    EffectiveDeliverySettles(p, net[step.hub], all, step.d);
    TotalMissingUpdate(p, net, all, step.hub, Deliver(p, net[step.hub], step.d));
  }

  lemma {:induction false} EffectiveStepsSettle(
    p: Primitives, net: Net, steps: seq<NetStep>, end: Net, all: set<Descriptor>)
    requires NetRun(p, net, steps, end) && ConflictFree(p, all) && Published(steps) <= all
    requires forall i | 0 <= i < |net| :: Within(p, net[i], all)
    ensures Effective(p, net, steps) + TotalMissing(p, end, all) <= TotalMissing(p, net, all)
    ensures |end| == |net| && forall i | 0 <= i < |end| :: Within(p, end[i], all)
    decreases |steps|
  {
    hide ConflictFree, Within, TotalMissing, NetNext, Missing;
    if steps != [] {
      var step, rest := steps[0], steps[1..];
      assert steps == [step] + rest;
      PublishedCons(step, rest);
      hide Published;
      StepSettles(p, net, step, all);
      EffectiveStepsSettle(p, NetNext(p, net, step), rest, end, all);
    }
  }

  lemma {:induction false} TotalMissingEmpty(p: Primitives, net: Net, all: set<Descriptor>)
    requires forall i | 0 <= i < |net| :: net[i] == map[]
    ensures TotalMissing(p, net, all) == |net| * |all|
  {
    if net != [] {
      assert Missing(p, map[], all) == all;
      TotalMissingEmpty(p, net[1..], all);
    }
  }

  /** At most one change per hub and descriptor, however long the hubs gossip. */
  lemma GossipSettles(p: Primitives, hubs: nat, s: set<Descriptor>, steps: seq<NetStep>, end: Net)
    requires NetRun(p, EmptyNet(hubs), steps, end) && Published(steps) <= s && ConflictFree(p, s)
    ensures Effective(p, EmptyNet(hubs), steps) <= hubs * |s|
    ensures |end| == hubs && (forall i | 0 <= i < hubs :: Within(p, end[i], s)) && TotalMissing(p, end, s) <= hubs * |s|
  {
    hide NetRun, ConflictFree, Published, Effective, TotalMissing;
    EffectiveStepsSettle(p, EmptyNet(hubs), steps, end, s);
    TotalMissingEmpty(p, EmptyNet(hubs), s);
  }

  /**
   Whoever publishes from `s`, and however the hubs gossip, no more steps change a hub than
   there are hubs times descriptors.
   */
  ghost predicate Settles(p: Primitives, s: set<Descriptor>) {
    forall hubs: nat, steps: seq<NetStep>, end: Net |
      NetRun(p, EmptyNet(hubs), steps, end) && Published(steps) <= s ::
        Effective(p, EmptyNet(hubs), steps) <= hubs * |s|
  }

  /** Gossip is sure to come to rest exactly when no two published descriptors share slot and sequence. */
  lemma GossipSettlesExactly(p: Primitives, s: set<Descriptor>)
    ensures Settles(p, s) <==> ConflictFree(p, s)
  {
    hide NetRun, Published, Effective, DedupKey;
    if ConflictFree(p, s) {
      hide ConflictFree;
      forall hubs: nat, steps: seq<NetStep>, end: Net |
        NetRun(p, EmptyNet(hubs), steps, end) && Published(steps) <= s
        ensures Effective(p, EmptyNet(hubs), steps) <= hubs * |s|
      {
        GossipSettles(p, hubs, s, steps, end);
      }
    } else {
      var d, e :| d in s && e in s && DedupKey(p, d) == DedupKey(p, e) && d.sequence == e.sequence && d != e;
      var steps, end := ConflictNeverSettles(p, d, e, 3 * |s|);
    }
  }

  /**
   Two descriptors of one slot and sequence, published to two hubs, displace each other in a
   third one for as long as they are sent to it.
   */
  lemma ConflictNeverSettles(p: Primitives, d: Descriptor, e: Descriptor, n: nat)
    returns (steps: seq<NetStep>, end: Net)
    requires d != e && DedupKey(p, d) == DedupKey(p, e) && d.sequence == e.sequence
    ensures NetRun(p, EmptyNet(3), steps, end) && Published(steps) == {d, e}
    ensures |steps| == n + 2 && forall k | 2 <= k < |steps| :: steps[k].Send?
    ensures Effective(p, EmptyNet(3), steps) == n + 2
  {
    hide DedupKey, Published;
    var net := EmptyNet(3);
    var net1 := NetNext(p, net, Publish(0, d));
    var net2 := NetNext(p, net1, Publish(1, e));
    var sends;
    sends, end := Displace(p, net2, 0, d, 1, e, n);
    var rest := [Publish(1, e)] + sends;
    steps := [Publish(0, d)] + rest;
    assert steps[1..] == rest && rest[1..] == sends;
    assert net1[0] != net[0] && net2[1] != net1[1];
    hide Effective, NetRun;
    PublishedCons(Publish(0, d), rest);
    PublishedCons(Publish(1, e), sends);
    NothingPublished(sends);
  }

  lemma NothingPublished(sends: seq<NetStep>)
    requires forall k | 0 <= k < |sends| :: sends[k].Send?
    ensures Published(sends) == {}
  {
  }

  lemma {:induction false} Displace(
    p: Primitives, net: Net, a: nat, d: Descriptor, b: nat, e: Descriptor, n: nat)
    returns (sends: seq<NetStep>, end: Net)
    requires d != e && DedupKey(p, d) == DedupKey(p, e) && d.sequence == e.sequence
    requires |net| == 3 && a < 2 && b < 2 && net[a] == map[DedupKey(p, d) := d] && net[b] == map[DedupKey(p, e) := e]
    requires net[2] == map[] || net[2] == net[b]
    ensures |sends| == n && (forall k | 0 <= k < n :: sends[k].Send?)
    ensures NetRun(p, net, sends, end) && Effective(p, net, sends) == n
    decreases n
  {
    hide DedupKey;
    if n == 0 {
      return [], net;
    }
    var step := Send(a, 2, d);
    DisplaceOne(p, net[2], d, e);
    var next := NetNext(p, net, step);
    assert Possible(net, step) by {
      assert DedupKey(p, d) in net[a];
    }
    var rest;
    rest, end := Displace(p, next, b, e, a, d, n - 1);
    sends := [step] + rest;
    assert sends[1..] == rest && next[2] != net[2];
  }

  lemma DisplaceOne(p: Primitives, m: SlotMap, d: Descriptor, e: Descriptor)
    requires d != e && DedupKey(p, d) == DedupKey(p, e) && d.sequence == e.sequence
    requires m == map[] || m == map[DedupKey(p, e) := e]
    ensures Deliver(p, m, d) == map[DedupKey(p, d) := d] != m
  {
    hide DedupKey;
    assert map[DedupKey(p, d) := d][DedupKey(p, d)] == d;
  }

  lemma {:induction false} RunConcat(
    p: Primitives, net: Net, steps: seq<NetStep>, mid: Net, more: seq<NetStep>, end: Net)
    requires NetRun(p, net, steps, mid) && NetRun(p, mid, more, end)
    ensures NetRun(p, net, steps + more, end)
    decreases |steps|
  {
    hide NetNext;
    if steps == [] {
      assert steps + more == more;
    } else {
      assert (steps + more)[1..] == steps[1..] + more;
      RunConcat(p, NetNext(p, net, steps[0]), steps[1..], mid, more, end);
    }
  }

  // ----- one round of the code

  function Batch(ds: seq<Descriptor>): seq<Descriptor> {
    if |ds| <= MAX_GOSSIP_BATCH then ds else ds[..MAX_GOSSIP_BATCH]
  }

  lemma {:induction false} DeliveredSlots(p: Primitives, ds: seq<Descriptor>, dk: seq<byte>)
    ensures dk in DeliverAll(p, map[], ds) ==> exists d <- ds :: DedupKey(p, d) == dk
  {
    hide DedupKey;
    if ds != [] {
      DeliveredSlots(p, ds[..|ds| - 1], dk);
    }
  }

  /**
   A round to an empty peer replicates the live slots of the sender exactly when there are
   at most fifty of them; whatever the list has beyond that is cut off.
   */
  lemma RoundReplicatesExactly(p: Primitives, m: SlotMap, now: nat, ds: seq<Descriptor>)
    requires (forall dk <- m :: DedupKey(p, m[dk]) == dk) && ListsLive(m, now, ds)
    ensures DeliverAll(p, map[], Batch(ds)) == HubEvict(m, now) <==> |ds| <= MAX_GOSSIP_BATCH
  {
    hide DedupKey, Live, DeliverAll;
    if |ds| <= MAX_GOSSIP_BATCH {
      EmptyIsBest(p);
      DeliverAllBest(p, map[], {}, ds);
      assert {} + Members(ds) == Members(ds);
      assert TopUnique(p, Members(ds)) && Best(p, HubEvict(m, now), Members(ds));
      BestUnique(p, DeliverAll(p, map[], ds), HubEvict(m, now), Members(ds));
    } else {
      var d := ds[MAX_GOSSIP_BATCH];
      assert d in ds;
      DeliveredSlots(p, Batch(ds), DedupKey(p, d));
      forall e <- Batch(ds) ensures DedupKey(p, e) != DedupKey(p, d) {
        assert e in ds && e != d;
      }
      assert DedupKey(p, d) in HubEvict(m, now);
    }
  }

  lemma DeliverKeepsCover(p: Primitives, m: SlotMap, d: Descriptor, x: Descriptor)
    ensures Covers(p, Deliver(p, m, d), d)
    ensures Covers(p, m, x) ==> Covers(p, Deliver(p, m, d), x)
    ensures DedupKey(p, x) != DedupKey(p, d) ==> (Covers(p, Deliver(p, m, d), x) <==> Covers(p, m, x))
  {
    hide DedupKey;
  }

  lemma {:induction false} DeliverAllCovers(p: Primitives, m: SlotMap, ds: seq<Descriptor>, x: Descriptor)
    ensures Covers(p, m, x) || x in ds ==> Covers(p, DeliverAll(p, m, ds), x)
    ensures (forall d <- ds :: DedupKey(p, d) != DedupKey(p, x)) ==>
      (Covers(p, DeliverAll(p, m, ds), x) <==> Covers(p, m, x))
  {
    hide Covers, Deliver, DedupKey;
    if ds != [] {
      var init, last := ds[..|ds| - 1], ds[|ds| - 1];
      DeliverAllCovers(p, m, init, x);
      DeliverKeepsCover(p, DeliverAll(p, m, init), last, x);
      assert ds == init + [last];
    }
  }

  /**
   A round brings a peer up to date with everything live at the sender exactly when the peer
   already had, in the same or a newer version, whatever lies beyond the first fifty.
   */
  lemma RoundCoversExactly(p: Primitives, m: SlotMap, peer: SlotMap, now: nat, ds: seq<Descriptor>)
    requires (forall dk <- m :: DedupKey(p, m[dk]) == dk) && ListsLive(m, now, ds)
    ensures (forall d <- ds :: Covers(p, DeliverAll(p, peer, Batch(ds)), d))
       <==> forall k | MAX_GOSSIP_BATCH <= k < |ds| :: Covers(p, peer, ds[k])
  {
    hide DedupKey, Covers, DeliverAll, Live;
    var batch := Batch(ds);
    forall k | 0 <= k < |ds|
      ensures Covers(p, DeliverAll(p, peer, batch), ds[k]) <==> k < MAX_GOSSIP_BATCH || Covers(p, peer, ds[k])
    {
      DeliverAllCovers(p, peer, batch, ds[k]);
      if k < MAX_GOSSIP_BATCH {
        assert batch[k] == ds[k];
      } else {
        OthersHaveOtherSlots(p, m, now, ds, k);
      }
    }
    hide Batch;
    if forall k | MAX_GOSSIP_BATCH <= k < |ds| :: Covers(p, peer, ds[k]) {
      forall d <- ds ensures Covers(p, DeliverAll(p, peer, batch), d) {
        var k :| 0 <= k < |ds| && ds[k] == d;
      }
    }
    if forall d <- ds :: Covers(p, DeliverAll(p, peer, batch), d) {
      forall k | MAX_GOSSIP_BATCH <= k < |ds| ensures Covers(p, peer, ds[k]) {
        assert ds[k] in ds;
      }
    }
  }

  lemma OthersHaveOtherSlots(p: Primitives, m: SlotMap, now: nat, ds: seq<Descriptor>, k: nat)
    requires (forall dk <- m :: DedupKey(p, m[dk]) == dk) && ListsLive(m, now, ds)
    requires MAX_GOSSIP_BATCH <= k < |ds|
    ensures forall d <- Batch(ds) :: DedupKey(p, d) != DedupKey(p, ds[k])
  {
    hide DedupKey, Live;
    forall d <- Batch(ds) ensures DedupKey(p, d) != DedupKey(p, ds[k]) {
      var i :| 0 <= i < |Batch(ds)| && Batch(ds)[i] == d;
      assert ds[i] == d && d in ds && ds[k] in ds && ds[i] != ds[k];
    }
  }
}

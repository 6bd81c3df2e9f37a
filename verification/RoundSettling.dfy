/** When rounds come to rest, and when two descriptors of one sequence keep them going. */
module RoundSettling {
  import opened Prelude
  import opened Descriptors
  import opened RedbTables
  import opened Gossip
  import opened HubRounds
  import opened RoundAgreement

  // ----- when rounds come to rest

  lemma {:induction false} IneffectiveIsIdle(p: Primitives, net: Net, sends: seq<NetStep>, end: Net)
    requires NetRun(p, net, sends, end) && Effective(p, net, sends) == 0
    ensures end == net
    decreases |sends|
  {
    if sends != [] {
      IneffectiveIsIdle(p, NetNext(p, net, sends[0]), sends[1..], end);
    }
  }

  /** The number of steps that change the hub they reach. */
  ghost function EffectiveSteps(p: Primitives, order: Order, net: Net, steps: seq<GossipStep>): nat
    decreases |steps|
  {
    if steps == [] || !CanStep(net, steps[0]) then 0
    else
      var next := Next(p, order, net, steps[0]);
      (if next != net then 1 else 0) + EffectiveSteps(p, order, next, steps[1..])
  }

  lemma HubStepSettles(p: Primitives, order: Order, net: Net, step: GossipStep, s: set<Descriptor>)
    requires IsListing(order) && ConflictFree(p, s) && AllWithin(p, net, s)
    requires CanStep(net, step) && (step.PublishTo? ==> step.d in s)
    ensures var next := Next(p, order, net, step);
            && AllWithin(p, next, s)
            && TotalMissing(p, next, s) + (if next != net then 1 else 0) <= TotalMissing(p, net, s)
  {
    hide IsListing, ConflictFree, NetRun, Next, Effective, TotalMissing, Within;
    var sends := StepIsSends(p, order, net, step);
    var next := Next(p, order, net, step);
    EffectiveStepsSettle(p, net, sends, next, s);
    if next != net && Effective(p, net, sends) == 0 {
      IneffectiveIsIdle(p, net, sends, next);
    }
  }

  lemma {:induction false} HubStepsSettle(
    p: Primitives, order: Order, net: Net, steps: seq<GossipStep>, end: Net, s: set<Descriptor>)
    requires IsListing(order) && ConflictFree(p, s) && AllWithin(p, net, s)
    requires HubRun(p, order, net, steps, end) && PublishedIn(steps) <= s
    ensures EffectiveSteps(p, order, net, steps) + TotalMissing(p, end, s) <= TotalMissing(p, net, s)
    ensures AllWithin(p, end, s)
    decreases |steps|
  {
    hide IsListing, ConflictFree, AllWithin, TotalMissing, Next;
    if steps != [] {
      var step, rest := steps[0], steps[1..];
      assert steps == [step] + rest;
      PublishedInConcat([step], rest);
      PublishedInOne(step);
      hide PublishedIn;
      HubStepSettles(p, order, net, step, s);
      HubStepsSettle(p, order, Next(p, order, net, step), rest, end, s);
    }
  }

  lemma EmptyNetMisses(p: Primitives, hubs: nat, s: set<Descriptor>)
    ensures TotalMissing(p, EmptyNet(hubs), s) == hubs * |s| && AllWithin(p, EmptyNet(hubs), s)
  {
    TotalMissingEmpty(p, EmptyNet(hubs), s);
    hide TotalMissing;
  }

  /** However the hubs gossip, no more steps change a hub than there are hubs times descriptors. */
  ghost predicate RoundsSettle(p: Primitives, order: Order, s: set<Descriptor>) {
    forall hubs: nat, steps: seq<GossipStep>, end: Net |
      HubRun(p, order, EmptyNet(hubs), steps, end) && PublishedIn(steps) <= s ::
        EffectiveSteps(p, order, EmptyNet(hubs), steps) <= hubs * |s|
  }

  /** Rounds are sure to come to rest exactly when no two descriptors share slot and sequence. */
  lemma RoundsSettleExactly(p: Primitives, order: Order, s: set<Descriptor>)
    requires IsListing(order)
    ensures RoundsSettle(p, order, s) <==> ConflictFree(p, s)
  {
    hide IsListing, HubRun, PublishedIn, EffectiveSteps, DedupKey, AllWithin, TotalMissing;
    if ConflictFree(p, s) {
      hide ConflictFree;
      forall hubs: nat, steps: seq<GossipStep>, end: Net |
        HubRun(p, order, EmptyNet(hubs), steps, end) && PublishedIn(steps) <= s
        ensures EffectiveSteps(p, order, EmptyNet(hubs), steps) <= hubs * |s|
      {
        EmptyNetMisses(p, hubs, s);
        HubStepsSettle(p, order, EmptyNet(hubs), steps, end, s);
      }
    } else {
      var d, e :| d in s && e in s && DedupKey(p, d) == DedupKey(p, e) && d.sequence == e.sequence && d != e;
      var steps, end := ConflictNeverRests(p, order, d, e, 3 * |s|);
    }
  }

  /** Two descriptors of one slot and sequence displace each other in a third hub, round after round. */
  lemma ConflictNeverRests(p: Primitives, order: Order, d: Descriptor, e: Descriptor, n: nat)
    returns (steps: seq<GossipStep>, end: Net)
    requires IsListing(order) && d != e && DedupKey(p, d) == DedupKey(p, e) && d.sequence == e.sequence
    ensures HubRun(p, order, EmptyNet(3), steps, end) && PublishedIn(steps) == {d, e}
    ensures |steps| == n + 2 && forall k | 2 <= k < |steps| :: steps[k].Round?
    ensures EffectiveSteps(p, order, EmptyNet(3), steps) == n + 2
  {
    hide IsListing, DedupKey, PublishedIn;
    var net := EmptyNet(3);
    var net1 := Next(p, order, net, PublishTo(0, d));
    var net2 := Next(p, order, net1, PublishTo(1, e));
    var rounds;
    rounds, end := DisplaceByRounds(p, order, net2, 0, d, 1, e, n);
    var rest := [PublishTo(1, e)] + rounds;
    steps := [PublishTo(0, d)] + rest;
    assert steps[1..] == rest && rest[1..] == rounds;
    assert net1[0] != net[0] && net2[1] != net1[1];
    hide EffectiveSteps, HubRun, Next;
    PublishedInConcat([PublishTo(0, d)], rest);
    PublishedInConcat([PublishTo(1, e)], rounds);
    PublishedInOne(PublishTo(0, d));
    PublishedInOne(PublishTo(1, e));
    RoundsPublishNothing(rounds);
  }

  lemma {:induction false} DisplaceByRounds(
    p: Primitives, order: Order, net: Net, a: nat, d: Descriptor, b: nat, e: Descriptor, n: nat)
    returns (rounds: seq<GossipStep>, end: Net)
    requires IsListing(order) && d != e && DedupKey(p, d) == DedupKey(p, e) && d.sequence == e.sequence
    requires |net| == 3 && a < 2 && b < 2 && net[a] == map[DedupKey(p, d) := d] && net[b] == map[DedupKey(p, e) := e]
    requires net[2] == map[] || net[2] == net[b]
    ensures |rounds| == n && OnlyRounds(rounds)
    ensures HubRun(p, order, net, rounds, end) && EffectiveSteps(p, order, net, rounds) == n
    decreases n
  {
    hide IsListing, DedupKey, Deliver, DeliverAll, Offered;
    if n == 0 {
      return [], net;
    }
    var step := Round(a, 2);
    OfferOfOne(order, net[a], DedupKey(p, d), d);
    DeliverOne(p, net[2], d);
    DisplaceOne(p, net[2], d, e);
    var next := Next(p, order, net, step);
    var rest;
    rest, end := DisplaceByRounds(p, order, next, b, e, a, d, n - 1);
    rounds := [step] + rest;
    assert rounds[1..] == rest && next[2] != net[2];
  }

  lemma OfferOfOne(order: Order, m: SlotMap, dk: seq<byte>, d: Descriptor)
    requires IsListing(order) && m == map[dk := d]
    ensures Offered(order, m) == [d]
  {
    ListingOf(order, m);
    var ds := order(m);
    hide IsListing;
    assert dk in m && m[dk] == d;
    assert d in ds && forall e <- ds :: e == d;
    DistinctLength(ds);
    assert (set e | e in ds) == {d};
  }

  lemma DeliverOne(p: Primitives, m: SlotMap, d: Descriptor)
    ensures DeliverAll(p, m, [d]) == Deliver(p, m, d)
  {
    hide Deliver;
    assert [d][..0] == [];
    assert DeliverAll(p, m, []) == m;
  }

  /** From wherever a run stands, finitely many rounds bring it to rest, whatever the number of slots. */
  lemma {:induction false} RoundsComeToRest(p: Primitives, order: Order, net: Net, s: set<Descriptor>)
    returns (rounds: seq<GossipStep>, end: Net)
    requires IsListing(order) && ConflictFree(p, s) && AllWithin(p, net, s)
    ensures OnlyRounds(rounds) && HubRun(p, order, net, rounds, end) && AtRest(p, order, end)
    ensures |rounds| <= TotalMissing(p, net, s)
    decreases TotalMissing(p, net, s)
  {
    hide IsListing, ConflictFree, AllWithin, TotalMissing, DeliverAll, Offered;
    if AtRest(p, order, net) {
      return [], net;
    }
    var i, j :| 0 <= i < |net| && 0 <= j < |net| && i != j && DeliverAll(p, net[j], Offered(order, net[i])) != net[j];
    var step := Round(i, j);
    assert Next(p, order, net, step)[j] != net[j];
    HubStepSettles(p, order, net, step, s);
    var rest;
    rest, end := RoundsComeToRest(p, order, Next(p, order, net, step), s);
    rounds := [step] + rest;
    assert rounds[1..] == rest;
  }

  /** Every run without conflicts comes to rest, and up to fifty slots to agreement. */
  lemma EveryRunComesToRest(p: Primitives, order: Order, hubs: nat, steps: seq<GossipStep>, mid: Net)
    returns (rounds: seq<GossipStep>, end: Net)
    requires IsListing(order) && HubRun(p, order, EmptyNet(hubs), steps, mid) && ConflictFree(p, PublishedIn(steps))
    ensures OnlyRounds(rounds) && HubRun(p, order, mid, rounds, end) && AtRest(p, order, end)
    ensures |rounds| <= hubs * |PublishedIn(steps)|
    ensures |Slots(p, PublishedIn(steps))| <= MAX_GOSSIP_BATCH ==>
      AllEqual(end) && forall i | 0 <= i < |end| :: Best(p, end[i], PublishedIn(steps))
  {
    hide IsListing, HubRun, ConflictFree, AtRest, AllWithin, TotalMissing, PublishedIn, Slots, Best;
    var s := PublishedIn(steps);
    EmptyNetMisses(p, hubs, s);
    HubStepsSettle(p, order, EmptyNet(hubs), steps, mid, s);
    rounds, end := RoundsComeToRest(p, order, mid, s);
    HubRunConcat(p, order, EmptyNet(hubs), steps, mid, rounds, end);
    PublishedInConcat(steps, rounds);
    RoundsPublishNothing(rounds);
    assert PublishedIn(steps + rounds) == s;
    if |Slots(p, s)| <= MAX_GOSSIP_BATCH {
      RestAgrees(p, order, hubs, steps + rounds, end);
    }
  }
}

/**
 When hubs that gossip in rounds agree: up to fifty slots every network at rest does, and
 every run can be brought to agreement; beyond fifty neither holds.
 */
module RoundAgreement {
  import opened Prelude
  import opened Descriptors
  import opened RedbTables
  import opened Gossip
  import opened HubRounds

  // ----- networks at rest

  /** No round of any hub changes anything. */
  ghost predicate AtRest(p: Primitives, order: Order, net: Net) {
    forall i, j | 0 <= i < |net| && 0 <= j < |net| && i != j ::
      DeliverAll(p, net[j], Offered(order, net[i])) == net[j]
  }

  ghost predicate AllEqual(net: Net) {
    forall i, j | 0 <= i < |net| && 0 <= j < |net| :: net[i] == net[j]
  }

  ghost predicate AllWithin(p: Primitives, net: Net, s: set<Descriptor>) {
    forall i | 0 <= i < |net| :: Within(p, net[i], s)
  }

  lemma OwnOffer(p: Primitives, m: SlotMap, dk: seq<byte>)
    requires Keyed(p, m) && dk in m
    ensures Deliver(p, m, m[dk]) == m
  {
    hide DedupKey;
    assert m[dk := m[dk]] == m;
  }

  /** Deliveries of distinct slots that change nothing in all change nothing one by one. */
  lemma IdleOffer(p: Primitives, m: SlotMap, ds: seq<Descriptor>, d: Descriptor)
    requires d in ds && forall e <- ds :: DedupKey(p, e) == DedupKey(p, d) ==> e == d
    requires DeliverAll(p, m, ds) == m
    ensures Deliver(p, m, d) == m
  {
    DeliverAllAt(p, m, ds, d);
    hide DedupKey, DeliverAll;
    if !Stale(p, m, d) {
      assert m[DedupKey(p, d) := d] == m;
    }
  }

  lemma RestIsQuiet(p: Primitives, order: Order, net: Net, s: set<Descriptor>)
    requires IsListing(order) && AtRest(p, order, net) && AllWithin(p, net, s) && |Slots(p, s)| <= MAX_GOSSIP_BATCH
    ensures Quiet(p, net)
  {
    hide IsListing, Deliver, DeliverAll, DedupKey, Slots, Within, Offered;
    forall i, j, dk | 0 <= i < |net| && 0 <= j < |net| && dk in net[i]
      ensures Deliver(p, net[j], net[i][dk]) == net[j]
    {
      FewAreAllOffered(p, order, net[i], s);
      if i == j {
        OwnOffer(p, net[i], dk);
      } else {
        OneOfTheListing(p, order, net[i], dk);
        IdleOffer(p, net[j], order(net[i]), net[i][dk]);
      }
    }
  }

  lemma OneOfTheListing(p: Primitives, order: Order, m: SlotMap, dk: seq<byte>)
    requires IsListing(order) && Keyed(p, m) && dk in m
    ensures m[dk] in order(m) && forall e <- order(m) :: DedupKey(p, e) == DedupKey(p, m[dk]) ==> e == m[dk]
  {
    hide DedupKey;
    assert ListsAll(m, order(m));
    forall e <- order(m) | DedupKey(p, e) == DedupKey(p, m[dk]) ensures e == m[dk] {
      ListedSlotsDiffer(p, m, order(m), e, m[dk]);
    }
  }

  /** What any run of sends leaves behind, hub by hub. */
  lemma RunIsTracked(p: Primitives, hubs: nat, sends: seq<NetStep>, end: Net)
    returns (received: seq<set<Descriptor>>)
    requires NetRun(p, EmptyNet(hubs), sends, end)
    ensures |end| == hubs && Tracks(p, end, received, Published(sends)) && AllWithin(p, end, Published(sends))
  {
    hide NetRun, Best, Published;
    var none: seq<set<Descriptor>> := seq(hubs, _ => {});
    EmptyIsBest(p);
    assert Tracks(p, EmptyNet(hubs), none, {});
    RunKeepsLength(p, EmptyNet(hubs), sends, end);
    received := RunTracks(p, EmptyNet(hubs), sends, end, none, {});
    assert {} + Published(sends) == Published(sends);
    forall i | 0 <= i < |end| ensures Within(p, end[i], Published(sends)) {
      BestIsWithin(p, end[i], received[i], Published(sends));
    }
  }

  lemma BestIsWithin(p: Primitives, m: SlotMap, s: set<Descriptor>, all: set<Descriptor>)
    requires Best(p, m, s) && s <= all
    ensures Within(p, m, all)
  {
    hide DedupKey;
  }

  lemma {:induction false} RunKeepsLength(p: Primitives, net: Net, sends: seq<NetStep>, end: Net)
    requires NetRun(p, net, sends, end)
    ensures |end| == |net|
    decreases |sends|
  {
    if sends != [] {
      RunKeepsLength(p, NetNext(p, net, sends[0]), sends[1..], end);
    }
  }

  lemma FewerSlots(p: Primitives, a: set<Descriptor>, b: set<Descriptor>)
    requires a <= b
    ensures |Slots(p, a)| <= |Slots(p, b)|
  {
    hide DedupKey;
    SubsetSize(Slots(p, a), Slots(p, b));
  }

  /** Up to fifty slots, a network that no round changes has everything everywhere. */
  lemma RestAgrees(p: Primitives, order: Order, hubs: nat, steps: seq<GossipStep>, end: Net)
    requires IsListing(order) && HubRun(p, order, EmptyNet(hubs), steps, end) && AtRest(p, order, end)
    requires |Slots(p, PublishedIn(steps))| <= MAX_GOSSIP_BATCH
    ensures AllEqual(end) && forall i | 0 <= i < |end| :: Best(p, end[i], PublishedIn(steps))
  {
    hide IsListing, HubRun, AtRest, AllWithin, Slots, PublishedIn, NetRun, Published, Best, Quiet;
    var sends := RunIsSends(p, order, EmptyNet(hubs), steps, end);
    var received := RunIsTracked(p, hubs, sends, end);
    hide Tracks;
    RestIsQuiet(p, order, end, PublishedIn(steps));
    forall i, j | 0 <= i < |end| && 0 <= j < |end| ensures end[i] == end[j] && Best(p, end[i], PublishedIn(steps)) {
      QuietNetworksAgree(p, hubs, sends, end, i, j);
    }
  }

  // ----- gathering everything at one hub and spreading it

  /** One hub in turn runs a round towards each of the others before `k`. */
  lemma {:induction false} SpreadFromFirst(p: Primitives, order: Order, net: Net, k: nat)
    returns (rounds: seq<GossipStep>, end: Net)
    requires 1 <= k <= |net|
    ensures |rounds| == k - 1 && OnlyRounds(rounds) && HubRun(p, order, net, rounds, end)
    ensures |end| == |net| && end[0] == net[0]
    ensures forall j | 1 <= j < k :: end[j] == DeliverAll(p, net[j], Offered(order, net[0]))
    ensures forall j | k <= j < |net| :: end[j] == net[j]
    decreases k
  {
    hide DeliverAll, Offered;
    if k == 1 {
      return [], net;
    }
    var front, mid := SpreadFromFirst(p, order, net, k - 1);
    var step := Round(0, k - 1);
    end := Next(p, order, mid, step);
    HubRunOne(p, order, mid, step);
    HubRunConcat(p, order, net, front, mid, [step], end);
    rounds := front + [step];
    hide HubRun;
  }

  /** Each hub before `k` in turn runs a round towards the first one, which then covers what they hold. */
  lemma {:induction false} GatherAtFirst(p: Primitives, order: Order, net: Net, s: set<Descriptor>, k: nat)
    returns (rounds: seq<GossipStep>, end: Net)
    requires IsListing(order) && 1 <= k <= |net| && AllWithin(p, net, s) && |Slots(p, s)| <= MAX_GOSSIP_BATCH
    ensures |rounds| == k - 1 && OnlyRounds(rounds) && HubRun(p, order, net, rounds, end)
    ensures |end| == |net| && end == net[0 := end[0]] && Within(p, end[0], s)
    ensures forall i, dk | 0 <= i < k && dk in net[i] :: Covers(p, end[0], net[i][dk])
    decreases k
  {
    hide DeliverAll, Offered, HubRun, Covers, Within, IsListing, Slots;
    if k == 1 {
      HubRunNone(p, order, net);
      forall dk | dk in net[0] ensures Covers(p, net[0], net[0][dk]) {
        OwnIsCovered(p, net[0], s, dk);
      }
      return [], net;
    }
    var front, mid := GatherAtFirst(p, order, net, s, k - 1);
    var step := Round(k - 1, 0);
    end := Next(p, order, mid, step);
    HubRunOne(p, order, mid, step);
    HubRunConcat(p, order, net, front, mid, [step], end);
    rounds := front + [step];
    TakenIn(p, order, mid[0], net[k - 1], s);
    forall i, dk | 0 <= i < k && dk in net[i] ensures Covers(p, end[0], net[i][dk]) {
      if i < k - 1 {
        DeliverAllCovers(p, mid[0], Offered(order, net[k - 1]), net[i][dk]);
      }
    }
  }

  lemma HubRunNone(p: Primitives, order: Order, net: Net)
    ensures HubRun(p, order, net, [], net)
  {
  }

  lemma OwnIsCovered(p: Primitives, m: SlotMap, s: set<Descriptor>, dk: seq<byte>)
    requires Within(p, m, s) && dk in m
    ensures Covers(p, m, m[dk])
  {
    hide DedupKey;
  }

  /** A round from a hub of few slots covers all of them at the peer. */
  lemma TakenIn(p: Primitives, order: Order, peer: SlotMap, m: SlotMap, s: set<Descriptor>)
    requires IsListing(order) && Within(p, m, s) && Within(p, peer, s) && |Slots(p, s)| <= MAX_GOSSIP_BATCH
    ensures forall dk <- m :: Covers(p, DeliverAll(p, peer, Offered(order, m)), m[dk])
    ensures Within(p, DeliverAll(p, peer, Offered(order, m)), s)
  {
    FewAreAllOffered(p, order, m, s);
    hide DedupKey, DeliverAll, Covers, Slots, Offered;
    assert ListsAll(m, order(m));
    forall dk <- m ensures Covers(p, DeliverAll(p, peer, Offered(order, m)), m[dk]) {
      DeliverAllCovers(p, peer, Offered(order, m), m[dk]);
    }
    forall dk <- DeliverAll(p, peer, Offered(order, m))
      ensures DeliverAll(p, peer, Offered(order, m))[dk] in s
      ensures DedupKey(p, DeliverAll(p, peer, Offered(order, m))[dk]) == dk
    {
      DeliverAllEntries(p, peer, Offered(order, m), dk);
    }
  }

  /** A hub that receives all of the best takes it over. */
  lemma TakesOver(p: Primitives, best: SlotMap, m: SlotMap, s: set<Descriptor>, ds: seq<Descriptor>)
    requires Best(p, best, s) && Within(p, m, s) && ListsAll(best, ds)
    ensures DeliverAll(p, m, ds) == best
  {
    hide DedupKey, DeliverAll;
    var end := DeliverAll(p, m, ds);
    forall dk <- best ensures dk in end && end[dk] == best[dk] {
      assert best[dk] in ds;
      forall e <- ds | DedupKey(p, e) == DedupKey(p, best[dk]) ensures e == best[dk] {
        ListedSlotsDiffer(p, best, ds, e, best[dk]);
      }
      DeliverAllAt(p, m, ds, best[dk]);
    }
    forall dk <- end ensures dk in best {
      DeliverAllEntries(p, m, ds, dk);
    }
  }

  lemma GatheredIsBest(
    p: Primitives, net: Net, received: seq<set<Descriptor>>, known: set<Descriptor>, m: SlotMap)
    requires Tracks(p, net, received, known) && Within(p, m, known)
    requires forall i, dk | 0 <= i < |net| && dk in net[i] :: Covers(p, m, net[i][dk])
    ensures Best(p, m, known)
  {
    hide DedupKey, Covers;
    forall d <- known ensures DedupKey(p, d) in m && d.sequence <= m[DedupKey(p, d)].sequence {
      var i :| 0 <= i < |net| && d in received[i];
      CoveredThrough(p, net[i], received[i], m, d);
    }
  }

  lemma CoveredThrough(p: Primitives, m: SlotMap, s: set<Descriptor>, m': SlotMap, d: Descriptor)
    requires Best(p, m, s) && d in s && forall dk <- m :: Covers(p, m', m[dk])
    ensures DedupKey(p, d) in m' && d.sequence <= m'[DedupKey(p, d)].sequence
  {
    BestAt(p, m, s, d);
    hide DedupKey, Best;
    assert Covers(p, m', m[DedupKey(p, d)]);
  }

  /** Up to fifty slots, gathering and spreading brings any run to agreement. */
  lemma RoundsBringAgreement(p: Primitives, order: Order, hubs: nat, steps: seq<GossipStep>, mid: Net)
    returns (rounds: seq<GossipStep>, end: Net)
    requires IsListing(order) && hubs > 0 && HubRun(p, order, EmptyNet(hubs), steps, mid)
    requires |Slots(p, PublishedIn(steps))| <= MAX_GOSSIP_BATCH
    ensures OnlyRounds(rounds) && |rounds| == 2 * (hubs - 1) && HubRun(p, order, mid, rounds, end)
    ensures AllEqual(end) && forall i | 0 <= i < |end| :: Best(p, end[i], PublishedIn(steps))
  {
    hide IsListing, HubRun, Slots, PublishedIn, NetRun, Published, Best, DeliverAll, Within, Offered, Covers;
    var sends := RunIsSends(p, order, EmptyNet(hubs), steps, mid);
    var received := RunIsTracked(p, hubs, sends, mid);
    var s := PublishedIn(steps);
    var first, gathered := GatherAtFirst(p, order, mid, s, hubs);
    GatheredIsBest(p, mid, received, s, gathered[0]);
    hide Tracks;
    var second;
    second, end := SpreadFromFirst(p, order, gathered, hubs);
    HubRunConcat(p, order, mid, first, gathered, second, end);
    rounds := first + second;
    FewAreAllOffered(p, order, gathered[0], s);
    ListingOf(order, gathered[0]);
    forall j | 0 <= j < |end| ensures end[j] == gathered[0] {
      if j > 0 {
        TakesOver(p, gathered[0], gathered[j], s, order(gathered[0]));
      }
    }
  }

  lemma ListingOf(order: Order, m: SlotMap)
    requires IsListing(order)
    ensures ListsAll(m, order(m))
  {
  }

  // ----- beyond fifty slots

  lemma PublishNone(p: Primitives, order: Order, hubs: nat)
    requires hubs > 0
    ensures HubRun(p, order, EmptyNet(hubs), [], EmptyNet(hubs)[0 := DeliverAll(p, map[], [])])
  {
    assert EmptyNet(hubs)[0 := map[]] == EmptyNet(hubs);
  }

  lemma OneMorePublished(p: Primitives, order: Order, hubs: nat, init: seq<Descriptor>, d: Descriptor)
    requires hubs > 0
    ensures HubRun(p, order, EmptyNet(hubs)[0 := DeliverAll(p, map[], init)], [PublishTo(0, d)],
                   EmptyNet(hubs)[0 := DeliverAll(p, map[], init + [d])])
  {
    hide Deliver, HubRun;
    var mid := EmptyNet(hubs)[0 := DeliverAll(p, map[], init)];
    HubRunOne(p, order, mid, PublishTo(0, d));
    assert (init + [d])[..|init|] == init;
    assert Next(p, order, mid, PublishTo(0, d)) == EmptyNet(hubs)[0 := DeliverAll(p, map[], init + [d])];
  }

  lemma {:induction false} PublishAll(p: Primitives, order: Order, hubs: nat, ds: seq<Descriptor>)
    returns (steps: seq<GossipStep>)
    requires hubs > 0
    ensures HubRun(p, order, EmptyNet(hubs), steps, EmptyNet(hubs)[0 := DeliverAll(p, map[], ds)])
    ensures PublishedIn(steps) == Members(ds)
  {
    hide Deliver, Next, HubRun;
    var net := EmptyNet(hubs);
    if ds == [] {
      PublishNone(p, order, hubs);
      return [];
    }
    var init, d := ds[..|ds| - 1], ds[|ds| - 1];
    var front := PublishAll(p, order, hubs, init);
    var mid, step := net[0 := DeliverAll(p, map[], init)], PublishTo(0, d);
    OneMorePublished(p, order, hubs, init, d);
    assert ds == init + [d];
    hide DeliverAll;
    HubRunConcat(p, order, net, front, mid, [step], net[0 := DeliverAll(p, map[], ds)]);
    steps := front + [step];
    PublishedInConcat(front, [step]);
    PublishedInOne(step);
    assert Members(ds) == Members(init) + {d};
  }

  /** The first hub holds `m0`, and the others only what its rounds offer. */
  ghost predicate Stuck(p: Primitives, order: Order, m0: SlotMap, net: Net) {
    && |net| >= 2 && net[0] == m0 && Keyed(p, m0)
    && forall j | 1 <= j < |net| :: Keyed(p, net[j]) && OnlyOffered(net[j], Offered(order, m0))
  }

  ghost predicate OnlyOffered(m: SlotMap, offer: seq<Descriptor>) {
    forall dk <- m :: m[dk] in offer
  }

  lemma DeliverOnlyOffered(p: Primitives, m: SlotMap, ds: seq<Descriptor>, offer: seq<Descriptor>)
    requires Keyed(p, m) && OnlyOffered(m, offer) && forall d <- ds :: d in offer
    ensures Keyed(p, DeliverAll(p, m, ds)) && OnlyOffered(DeliverAll(p, m, ds), offer)
  {
    hide DedupKey, DeliverAll;
    forall dk <- DeliverAll(p, m, ds)
      ensures DedupKey(p, DeliverAll(p, m, ds)[dk]) == dk && DeliverAll(p, m, ds)[dk] in offer
    {
      DeliverAllEntries(p, m, ds, dk);
    }
  }

  lemma OffersOnlyOffered(order: Order, m: SlotMap, offer: seq<Descriptor>)
    requires IsListing(order) && OnlyOffered(m, offer)
    ensures forall d <- Offered(order, m) :: d in offer
  {
    OfferedIsHeld(order, m);
  }

  lemma OfferedAreHeld(p: Primitives, order: Order, m: SlotMap)
    requires IsListing(order) && Keyed(p, m)
    ensures forall d <- Offered(order, m) :: Holds(p, m, d)
  {
    hide DedupKey;
    OfferedIsHeld(order, m);
  }

  lemma StuckAfterRound(p: Primitives, order: Order, m0: SlotMap, net: Net, step: GossipStep)
    requires IsListing(order) && Stuck(p, order, m0, net) && CanStep(net, step) && step.Round?
    ensures Stuck(p, order, m0, Next(p, order, net, step))
  {
    var i, j, offer := step.sender, step.peer, Offered(order, m0);
    OfferedAreHeld(p, order, m0);
    hide IsListing, DeliverAll, Offered, DedupKey, Keyed, OnlyOffered;
    if i > 0 {
      OffersOnlyOffered(order, net[i], offer);
    }
    if j == 0 {
      DeliverHeld(p, m0, Offered(order, net[i]));
    } else {
      DeliverOnlyOffered(p, net[j], Offered(order, net[i]), offer);
    }
  }

  lemma {:induction false} StuckForever(
    p: Primitives, order: Order, m0: SlotMap, net: Net, rounds: seq<GossipStep>, end: Net)
    requires IsListing(order) && Stuck(p, order, m0, net) && OnlyRounds(rounds) && HubRun(p, order, net, rounds, end)
    ensures Stuck(p, order, m0, end)
    decreases |rounds|
  {
    hide IsListing, Stuck, Next;
    if rounds != [] {
      StuckAfterRound(p, order, m0, net, rounds[0]);
      StuckForever(p, order, m0, Next(p, order, net, rounds[0]), rounds[1..], end);
    }
  }

  /** With more than fifty slots at the first hub, the others never hold the same. */
  lemma StuckDisagrees(p: Primitives, order: Order, m0: SlotMap, net: Net)
    requires IsListing(order) && Stuck(p, order, m0, net) && |m0.Keys| > MAX_GOSSIP_BATCH
    ensures !AllEqual(net)
  {
    ListingOf(order, m0);
    ListingLength(p, m0, order(m0));
    var beyond := order(m0)[MAX_GOSSIP_BATCH];
    assert beyond in order(m0);
    assert beyond !in Offered(order, m0);
    hide IsListing, DedupKey, Offered;
    var dk :| dk in m0 && m0[dk] == beyond;
    assert OnlyOffered(net[1], Offered(order, m0));
    assert net[0] != net[1];
  }

  /** Everything is published at the first hub of several. */
  lemma ManySlots(p: Primitives, order: Order, hubs: nat, s: set<Descriptor>)
    returns (steps: seq<GossipStep>, m0: SlotMap)
    requires IsListing(order) && hubs >= 2 && |Slots(p, s)| > MAX_GOSSIP_BATCH
    ensures HubRun(p, order, EmptyNet(hubs), steps, EmptyNet(hubs)[0 := m0]) && PublishedIn(steps) <= s
    ensures |m0.Keys| > MAX_GOSSIP_BATCH && Stuck(p, order, m0, EmptyNet(hubs)[0 := m0])
  {
    hide IsListing, HubRun, PublishedIn, DeliverAll, Offered;
    var all := Listing(s);
    steps := PublishAll(p, order, hubs, all);
    m0 := DeliverAll(p, map[], all);
    DeliveredIsBest(p, all);
    BestHasAllSlots(p, m0, s);
  }

  lemma BestHasAllSlots(p: Primitives, m: SlotMap, s: set<Descriptor>)
    requires Best(p, m, s)
    ensures m.Keys == Slots(p, s) && Keyed(p, m)
  {
    hide DedupKey;
  }

  ghost predicate CanAgree(p: Primitives, order: Order, net: Net) {
    exists rounds: seq<GossipStep>, end: Net ::
      OnlyRounds(rounds) && HubRun(p, order, net, rounds, end) && AllEqual(end)
  }

  ghost predicate CanAlwaysAgree(p: Primitives, order: Order, hubs: nat, s: set<Descriptor>) {
    forall steps: seq<GossipStep>, mid: Net |
      HubRun(p, order, EmptyNet(hubs), steps, mid) && PublishedIn(steps) <= s :: CanAgree(p, order, mid)
  }

  /**
   Every run that publishes from `s` can be brought to agreement by rounds exactly when there
   is at most one hub or `s` has at most fifty slots.
   */
  lemma CanAlwaysAgreeExactly(p: Primitives, order: Order, hubs: nat, s: set<Descriptor>)
    requires IsListing(order)
    ensures CanAlwaysAgree(p, order, hubs, s) <==> hubs <= 1 || |Slots(p, s)| <= MAX_GOSSIP_BATCH
  {
    hide IsListing, HubRun, PublishedIn, Slots, Stuck, Best;
    if hubs <= 1 {
      forall steps: seq<GossipStep>, mid: Net | HubRun(p, order, EmptyNet(hubs), steps, mid) && PublishedIn(steps) <= s
        ensures CanAgree(p, order, mid)
      {
        HubRunKeepsLength(p, order, EmptyNet(hubs), steps, mid);
        HubRunNone(p, order, mid);
        assert OnlyRounds([]) && AllEqual(mid);
      }
    } else if |Slots(p, s)| <= MAX_GOSSIP_BATCH {
      forall steps: seq<GossipStep>, mid: Net | HubRun(p, order, EmptyNet(hubs), steps, mid) && PublishedIn(steps) <= s
        ensures CanAgree(p, order, mid)
      {
        FewerSlots(p, PublishedIn(steps), s);
        var rounds, end := RoundsBringAgreement(p, order, hubs, steps, mid);
      }
    } else {
      var steps, m0 := ManySlots(p, order, hubs, s);
      var mid := EmptyNet(hubs)[0 := m0];
      if CanAgree(p, order, mid) {
        var rounds: seq<GossipStep>, end: Net :|
          OnlyRounds(rounds) && HubRun(p, order, mid, rounds, end) && AllEqual(end);
        StuckForever(p, order, m0, mid, rounds, end);
        StuckDisagrees(p, order, m0, end);
      }
    }
  }

  lemma {:induction false} HubRunKeepsLength(p: Primitives, order: Order, net: Net, steps: seq<GossipStep>, end: Net)
    requires HubRun(p, order, net, steps, end)
    ensures |end| == |net|
    decreases |steps|
  {
    if steps != [] {
      HubRunKeepsLength(p, order, Next(p, order, net, steps[0]), steps[1..], end);
    }
  }

  ghost predicate RestAlwaysAgrees(p: Primitives, order: Order, hubs: nat, s: set<Descriptor>) {
    forall steps: seq<GossipStep>, end: Net |
      HubRun(p, order, EmptyNet(hubs), steps, end) && PublishedIn(steps) <= s && AtRest(p, order, end) :: AllEqual(end)
  }

  /** Under the same condition, and only then, every network that no round changes agrees. */
  lemma RestAgreesExactly(p: Primitives, order: Order, hubs: nat, s: set<Descriptor>)
    requires IsListing(order)
    ensures RestAlwaysAgrees(p, order, hubs, s) <==> hubs <= 1 || |Slots(p, s)| <= MAX_GOSSIP_BATCH
  {
    hide IsListing, HubRun, PublishedIn, Slots, AtRest, Stuck, Best, OnlyRounds;
    if hubs <= 1 || |Slots(p, s)| <= MAX_GOSSIP_BATCH {
      forall steps: seq<GossipStep>, end: Net |
        HubRun(p, order, EmptyNet(hubs), steps, end) && PublishedIn(steps) <= s && AtRest(p, order, end)
        ensures AllEqual(end)
      {
        HubRunKeepsLength(p, order, EmptyNet(hubs), steps, end);
        if hubs > 1 {
          FewerSlots(p, PublishedIn(steps), s);
          RestAgrees(p, order, hubs, steps, end);
        }
      }
    } else {
      var steps, m0 := ManySlots(p, order, hubs, s);
      var mid := EmptyNet(hubs)[0 := m0];
      var rounds, end := SpreadFromFirst(p, order, mid, hubs);
      StuckForever(p, order, m0, mid, rounds, end);
      StuckDisagrees(p, order, m0, end);
      SpreadIsAtRest(p, order, m0, end);
      HubRunConcat(p, order, EmptyNet(hubs), steps, mid, rounds, end);
      PublishedInConcat(steps, rounds);
      RoundsPublishNothing(rounds);
      assert HubRun(p, order, EmptyNet(hubs), steps + rounds, end) && PublishedIn(steps + rounds) <= s;
    }
  }

  lemma RoundsPublishNothing(rounds: seq<GossipStep>)
    requires OnlyRounds(rounds)
    ensures PublishedIn(rounds) == {}
  {
  }

  /** Once the others hold what the first hub offers, no round changes anything. */
  lemma SpreadIsAtRest(p: Primitives, order: Order, m0: SlotMap, net: Net)
    requires IsListing(order) && Stuck(p, order, m0, net)
    requires forall j | 1 <= j < |net| :: net[j] == DeliverAll(p, map[], Offered(order, m0))
    ensures AtRest(p, order, net)
  {
    hide IsListing, DeliverAll, Offered, DedupKey, Keyed, OnlyOffered;
    forall i, j | 0 <= i < |net| && 0 <= j < |net| && i != j
      ensures DeliverAll(p, net[j], Offered(order, net[i])) == net[j]
    {
      OfferedAreHeld(p, order, m0);
      if i > 0 {
        OffersOnlyOffered(order, net[i], Offered(order, m0));
      }
      if j > 0 {
        OfferTaken(p, order, m0);
      }
      DeliverHeld(p, net[j], Offered(order, net[i]));
    }
  }

  lemma OfferTaken(p: Primitives, order: Order, m0: SlotMap)
    requires IsListing(order) && Keyed(p, m0)
    ensures forall d <- Offered(order, m0) :: Holds(p, DeliverAll(p, map[], Offered(order, m0)), d)
  {
    ListingOf(order, m0);
    var offer := Offered(order, m0);
    hide IsListing, DedupKey, DeliverAll;
    assert forall d <- offer :: d in order(m0);
    forall d <- offer ensures Holds(p, DeliverAll(p, map[], offer), d) {
      forall e <- offer | DedupKey(p, e) == DedupKey(p, d) ensures e == d {
        ListedSlotsDiffer(p, m0, order(m0), e, d);
      }
      DeliverAllAt(p, map[], offer, d);
    }
  }
}

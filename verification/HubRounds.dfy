/**
 Networks of hubs that gossip in rounds as the code does: a round offers a peer the first
 fifty descriptors of the sender's listing. What rounds can and cannot bring about.
 */
module HubRounds {
  import opened Prelude
  import opened Descriptors
  import opened RedbTables
  import opened Gossip

  /** The order in which a hub lists what it holds; the code lists by id. */
  type Order = SlotMap -> seq<Descriptor>

  ghost predicate ListsAll(m: SlotMap, ds: seq<Descriptor>) {
    && (forall d: Descriptor :: d in ds <==> exists dk <- m :: m[dk] == d)
    && (forall i, j | 0 <= i < j < |ds| :: ds[i] != ds[j])
  }

  ghost predicate IsListing(order: Order) {
    forall m: SlotMap :: ListsAll(m, order(m))
  }

  ghost function SomeListing(m: SlotMap): (ds: seq<Descriptor>)
    ensures ListsAll(m, ds)
    decreases |m|
  {
    if m == map[] then []
    else
      var dk :| dk in m;
      var others := SomeListing(m - {dk});
      OneMoreListed(m, dk, others);
      if m[dk] in others then others else [m[dk]] + others
  }

  lemma OneMoreListed(m: SlotMap, dk: seq<byte>, others: seq<Descriptor>)
    requires dk in m && ListsAll(m - {dk}, others)
    ensures ListsAll(m, if m[dk] in others then others else [m[dk]] + others)
  {
    var ds := if m[dk] in others then others else [m[dk]] + others;
    forall d: Descriptor ensures d in ds <==> exists dk' <- m :: m[dk'] == d {
      if dk' :| dk' in m && m[dk'] == d {
        assert dk' == dk || (m - {dk})[dk'] == d;
      }
      if d in others {
        var dk' :| dk' in m - {dk} && (m - {dk})[dk'] == d;
        assert m[dk'] == d;
      }
    }
  }

  /** There are such orders. */
  lemma ListingsExist()
    ensures exists order: Order :: IsListing(order)
  {
    var order: Order := m => SomeListing(m);
    assert IsListing(order);
  }

  function Offered(order: Order, m: SlotMap): seq<Descriptor> {
    Batch(order(m))
  }

  /** A client publishes to a hub, or a hub runs a round towards one of its peers. */
  datatype GossipStep = PublishTo(hub: nat, d: Descriptor) | Round(sender: nat, peer: nat)

  predicate CanStep(net: Net, step: GossipStep) {
    match step
    case PublishTo(hub, _) => hub < |net|
    case Round(i, j) => i < |net| && j < |net| && i != j
  }

  function Next(p: Primitives, order: Order, net: Net, step: GossipStep): (next: Net)
    requires CanStep(net, step)
    ensures |next| == |net|
  {
    match step
    case PublishTo(hub, d) => net[hub := Deliver(p, net[hub], d)]
    case Round(i, j) => net[j := DeliverAll(p, net[j], Offered(order, net[i]))]
  }

  ghost predicate HubRun(p: Primitives, order: Order, net: Net, steps: seq<GossipStep>, end: Net)
    decreases |steps|
  {
    if steps == [] then end == net
    else CanStep(net, steps[0]) && HubRun(p, order, Next(p, order, net, steps[0]), steps[1..], end)
  }

  ghost function PublishedIn(steps: seq<GossipStep>): set<Descriptor> {
    set i | 0 <= i < |steps| && steps[i].PublishTo? :: steps[i].d
  }

  predicate OnlyRounds(steps: seq<GossipStep>) {
    forall k | 0 <= k < |steps| :: steps[k].Round?
  }

  lemma {:induction false} HubRunConcat(
    p: Primitives, order: Order, net: Net, steps: seq<GossipStep>, mid: Net, more: seq<GossipStep>, end: Net)
    requires HubRun(p, order, net, steps, mid) && HubRun(p, order, mid, more, end)
    ensures HubRun(p, order, net, steps + more, end)
    decreases |steps|
  {
    hide Next;
    if steps == [] {
      assert steps + more == more;
    } else {
      assert (steps + more)[1..] == steps[1..] + more;
      HubRunConcat(p, order, Next(p, order, net, steps[0]), steps[1..], mid, more, end);
    }
  }

  lemma HubRunOne(p: Primitives, order: Order, net: Net, step: GossipStep)
    requires CanStep(net, step)
    ensures HubRun(p, order, net, [step], Next(p, order, net, step))
  {
    hide Next;
    assert HubRun(p, order, Next(p, order, net, step), [], Next(p, order, net, step));
    assert [step][1..] == [];
  }

  lemma PublishedInConcat(a: seq<GossipStep>, b: seq<GossipStep>)
    ensures PublishedIn(a + b) == PublishedIn(a) + PublishedIn(b)
  {
    var all := a + b;
    forall d <- PublishedIn(a) ensures d in PublishedIn(all) {
      var i :| 0 <= i < |a| && a[i].PublishTo? && a[i].d == d;
      assert all[i] == a[i];
    }
    forall d <- PublishedIn(b) ensures d in PublishedIn(all) {
      var i :| 0 <= i < |b| && b[i].PublishTo? && b[i].d == d;
      assert all[|a| + i] == b[i];
    }
  }

  // ----- a round is a run of sends

  /** Delivering a list one by one is sending it, as long as the sender is another hub. */
  lemma {:induction false} RoundIsSends(p: Primitives, net: Net, i: nat, j: nat, ds: seq<Descriptor>)
    returns (sends: seq<NetStep>)
    requires i < |net| && j < |net| && i != j
    requires forall d <- ds :: exists dk <- net[i] :: net[i][dk] == d
    ensures NetRun(p, net, sends, net[j := DeliverAll(p, net[j], ds)]) && Published(sends) == {}
  {
    hide Deliver;
    if ds == [] {
      assert net[j := net[j]] == net;
      return [];
    }
    var init, d := ds[..|ds| - 1], ds[|ds| - 1];
    assert d in ds && forall e <- init :: e in ds;
    var mid := net[j := DeliverAll(p, net[j], init)];
    var front := RoundIsSends(p, net, i, j, init);
    var step := Send(i, j, d);
    var dk :| dk in net[i] && net[i][dk] == d;
    assert mid[i][dk] == d;
    var end := NetNext(p, mid, step);
    assert end == net[j := DeliverAll(p, net[j], ds)];
    NetRunOne(p, mid, step);
    RunConcat(p, net, front, mid, [step], end);
    sends := front + [step];
    hide NetRun;
  }

  lemma NetRunOne(p: Primitives, net: Net, step: NetStep)
    requires Possible(net, step)
    ensures NetRun(p, net, [step], NetNext(p, net, step))
  {
    hide NetNext;
    assert NetRun(p, NetNext(p, net, step), [], NetNext(p, net, step));
    assert [step][1..] == [];
  }

  /** So whatever holds of all runs of sends holds of all runs of rounds. */
  lemma {:induction false} RunIsSends(p: Primitives, order: Order, net: Net, steps: seq<GossipStep>, end: Net)
    returns (sends: seq<NetStep>)
    requires IsListing(order) && HubRun(p, order, net, steps, end)
    ensures NetRun(p, net, sends, end) && Published(sends) == PublishedIn(steps)
    decreases |steps|
  {
    hide Deliver, DeliverAll;
    if steps == [] {
      return [];
    }
    var step, next := steps[0], Next(p, order, net, steps[0]);
    var rest := RunIsSends(p, order, next, steps[1..], end);
    var first := StepIsSends(p, order, net, step);
    hide NetRun, Next, IsListing;
    RunConcat(p, net, first, next, rest, end);
    SendsConcat(first, rest);
    assert steps == [step] + steps[1..];
    PublishedInConcat([step], steps[1..]);
    PublishedInOne(step);
    hide Published, PublishedIn;
    sends := first + rest;
  }

  lemma PublishedInOne(step: GossipStep)
    ensures PublishedIn([step]) == if step.PublishTo? then {step.d} else {}
  {
    if step.PublishTo? {
      assert [step][0].d in PublishedIn([step]);
    }
  }

  lemma SendsConcat(a: seq<NetStep>, b: seq<NetStep>)
    ensures Published(a + b) == Published(a) + Published(b)
  {
    var all := a + b;
    forall d <- Published(a) ensures d in Published(all) {
      var i :| 0 <= i < |a| && a[i].Publish? && a[i].d == d;
      assert all[i] == a[i];
    }
    forall d <- Published(b) ensures d in Published(all) {
      var i :| 0 <= i < |b| && b[i].Publish? && b[i].d == d;
      assert all[|a| + i] == b[i];
    }
  }

  lemma StepIsSends(p: Primitives, order: Order, net: Net, step: GossipStep) returns (sends: seq<NetStep>)
    requires IsListing(order) && CanStep(net, step)
    ensures NetRun(p, net, sends, Next(p, order, net, step))
    ensures Published(sends) == if step.PublishTo? then {step.d} else {}
  {
    hide Deliver, DeliverAll;
    match step
    case PublishTo(hub, d) =>
      sends := [Publish(hub, d)];
      NetRunOne(p, net, Publish(hub, d));
      assert sends == [Publish(hub, d)] + [];
      PublishedCons(Publish(hub, d), []);
    case Round(i, j) =>
      OfferedIsHeld(order, net[i]);
      sends := RoundIsSends(p, net, i, j, Offered(order, net[i]));
  }

  lemma OfferedIsHeld(order: Order, m: SlotMap)
    requires IsListing(order)
    ensures forall d <- Offered(order, m) :: exists dk <- m :: m[dk] == d
  {
    assert ListsAll(m, order(m));
    forall d <- Offered(order, m) ensures d in order(m) {
    }
  }

  // ----- how long a listing is

  lemma {:induction false} DistinctLength<T>(s: seq<T>)
    requires forall i, j | 0 <= i < j < |s| :: s[i] != s[j]
    ensures |set x | x in s| == |s|
    decreases |s|
  {
    if s != [] {
      var init, last := s[..|s| - 1], s[|s| - 1];
      DistinctLength(init);
      assert s == init + [last];
      assert last !in init;
      assert (set x | x in s) == (set x | x in init) + {last};
    }
  }

  /** Each slot sits under its own key. */
  ghost predicate Keyed(p: Primitives, m: SlotMap) {
    forall dk <- m :: DedupKey(p, m[dk]) == dk
  }

  lemma ListedSlotsDiffer(p: Primitives, m: SlotMap, ds: seq<Descriptor>, d: Descriptor, e: Descriptor)
    requires Keyed(p, m) && ListsAll(m, ds) && d in ds && e in ds && DedupKey(p, d) == DedupKey(p, e)
    ensures d == e
  {
    hide DedupKey;
  }

  lemma ListingLength(p: Primitives, m: SlotMap, ds: seq<Descriptor>)
    requires Keyed(p, m) && ListsAll(m, ds)
    ensures |ds| == |m.Keys|
  {
    hide DedupKey;
    var keys := seq(|ds|, i requires 0 <= i < |ds| => DedupKey(p, ds[i]));
    forall i, j | 0 <= i < j < |keys| ensures keys[i] != keys[j] {
      assert ds[i] in ds && ds[j] in ds;
      if keys[i] == keys[j] {
        ListedSlotsDiffer(p, m, ds, ds[i], ds[j]);
      }
    }
    DistinctLength(keys);
    forall dk <- m ensures dk in keys {
      assert m[dk] in ds;
      var i :| 0 <= i < |ds| && ds[i] == m[dk];
      assert keys[i] == dk;
    }
    forall dk <- keys ensures dk in m {
      var i :| 0 <= i < |keys| && keys[i] == dk;
      assert ds[i] in ds;
    }
    assert (set dk | dk in keys) == m.Keys;
  }

  ghost function Slots(p: Primitives, s: set<Descriptor>): set<seq<byte>> {
    set d <- s :: DedupKey(p, d)
  }

  lemma {:induction false} SubsetSize<T>(a: set<T>, b: set<T>)
    requires a <= b
    ensures |a| <= |b|
  {
    assert b == a + (b - a);
  }

  /** A hub that holds no more than fifty slots offers everything. */
  lemma FewAreAllOffered(p: Primitives, order: Order, m: SlotMap, s: set<Descriptor>)
    requires IsListing(order) && Within(p, m, s) && |Slots(p, s)| <= MAX_GOSSIP_BATCH
    ensures Offered(order, m) == order(m) && Keyed(p, m)
  {
    hide DedupKey;
    assert ListsAll(m, order(m));
    ListingLength(p, m, order(m));
    SubsetSize(m.Keys, Slots(p, s));
  }

  // ----- what a delivery of distinct slots does

  lemma {:induction false} DeliverAllElsewhere(p: Primitives, m: SlotMap, ds: seq<Descriptor>, dk: seq<byte>)
    requires forall d <- ds :: DedupKey(p, d) != dk
    ensures dk in DeliverAll(p, m, ds) <==> dk in m
    ensures dk in m ==> DeliverAll(p, m, ds)[dk] == m[dk]
  {
    hide DedupKey;
    if ds != [] {
      DeliverAllElsewhere(p, m, ds[..|ds| - 1], dk);
    }
  }

  /** A slot that is delivered once ends as if nothing else had been delivered. */
  lemma {:induction false} DeliverAllAt(p: Primitives, m: SlotMap, ds: seq<Descriptor>, d: Descriptor)
    requires d in ds && forall e <- ds :: DedupKey(p, e) == DedupKey(p, d) ==> e == d
    ensures var dk := DedupKey(p, d);
            && dk in DeliverAll(p, m, ds) && dk in Deliver(p, m, d)
            && DeliverAll(p, m, ds)[dk] == Deliver(p, m, d)[dk]
  {
    hide DedupKey;
    var init, last := ds[..|ds| - 1], ds[|ds| - 1];
    assert ds == init + [last];
    if d in init {
      DeliverAllAt(p, m, init, d);
    } else {
      DeliverAllElsewhere(p, m, init, DedupKey(p, d));
    }
  }

  lemma {:induction false} DeliverAllEntries(p: Primitives, m: SlotMap, ds: seq<Descriptor>, dk: seq<byte>)
    requires Keyed(p, m) && dk in DeliverAll(p, m, ds)
    ensures DedupKey(p, DeliverAll(p, m, ds)[dk]) == dk
    ensures DeliverAll(p, m, ds)[dk] in ds || (dk in m && m[dk] == DeliverAll(p, m, ds)[dk])
  {
    hide DedupKey;
    if ds != [] {
      var init := ds[..|ds| - 1];
      if dk in DeliverAll(p, m, init) {
        DeliverAllEntries(p, m, init, dk);
      }
    }
  }

  /** What a hub holds already changes nothing. */
  lemma {:induction false} DeliverHeld(p: Primitives, m: SlotMap, ds: seq<Descriptor>)
    requires forall d <- ds :: Holds(p, m, d)
    ensures DeliverAll(p, m, ds) == m
  {
    hide DedupKey;
    if ds != [] {
      var init, last := ds[..|ds| - 1], ds[|ds| - 1];
      assert last in ds && forall e <- init :: e in ds;
      DeliverHeld(p, m, init);
      assert m[DedupKey(p, last) := last] == m;
    }
  }
}

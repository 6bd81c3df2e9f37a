/** A gossip round as the hub runs it, against the stores of its peers. */
module GossipRounds {
  import opened Prelude
  import opened Descriptors
  import opened RedbTables
  import opened DiskStore
  import opened Gossip

  /** When the STORE for the descriptor numbered `j` arrives, by the clock of the receiver; never, if it is lost. */
  type Arrivals = nat -> Option<Clock>

  /** What a batch of STOREs from a peer hub leaves: each that arrives and is valid then is delivered. */
  function ReceiveAll(p: Primitives, m: SlotMap, ds: seq<Descriptor>, arrivals: Arrivals): SlotMap {
    if ds == [] then m
    else
      var n := |ds| - 1;
      ReceiveOne(p, ReceiveAll(p, m, ds[..n], arrivals), ds[n], arrivals(n))
  }

  function ReceiveOne(p: Primitives, m: SlotMap, d: Descriptor, arrival: Option<Clock>): SlotMap {
    if arrival.Some? && Validate(p, d, arrival.value).Ok? then Deliver(p, m, d) else m
  }

  lemma {:induction false} ValidOnesAreDelivered(
    p: Primitives, m: SlotMap, ds: seq<Descriptor>, arrivals: Arrivals)
    requires forall j | 0 <= j < |ds| :: arrivals(j).Some? && Validate(p, ds[j], arrivals(j).value).Ok?
    ensures ReceiveAll(p, m, ds, arrivals) == DeliverAll(p, m, ds)
  {
    hide Validate, Deliver;
    if ds != [] {
      ValidOnesAreDelivered(p, m, ds[..|ds| - 1], arrivals);
    }
  }

  /** Whatever is lost or invalid on the way, the peer ends with the best of what it had and what was delivered. */
  lemma {:induction false} LossesOnlyOmit(
    p: Primitives, m: SlotMap, s: set<Descriptor>, ds: seq<Descriptor>, arrivals: Arrivals)
    returns (delivered: seq<Descriptor>)
    requires Best(p, m, s)
    ensures forall d <- delivered :: d in ds
    ensures ReceiveAll(p, m, ds, arrivals) == DeliverAll(p, m, delivered)
    ensures Best(p, ReceiveAll(p, m, ds, arrivals), s + Members(delivered))
  {
    hide Validate, Deliver, Best;
    delivered := [];
    if ds != [] {
      var n := |ds| - 1;
      delivered := LossesOnlyOmit(p, m, s, ds[..n], arrivals);
      if arrivals(n).Some? && Validate(p, ds[n], arrivals(n).value).Ok? {
        var init := delivered;
        delivered := init + [ds[n]];
        assert delivered[..|init|] == init;
      }
    }
    hide DeliverAll, ReceiveAll, ReceiveOne;
    DeliverAllBest(p, m, s, delivered);
  }

  /** A STORE from a peer hub: the rate limit is off while it is handled. */
  method ReceiveStore(hub: RedbStorage, d: Descriptor, now: Clock) returns (stored: bool)
    requires hub.Valid()
    modifies hub
    ensures hub.Valid() && !hub.skipRateLimit && hub.rateTimestamps == old(hub.rateTimestamps)
    ensures hub.slots == ReceiveOne(hub.primitives, old(hub.slots), d, Some(now))
    ensures stored <==> Validate(hub.primitives, d, now).Ok? && !Stale(hub.primitives, old(hub.slots), d)
  {
    hide Validate, Represents, CollisionFree, DedupKey;
    hub.skipRateLimit := true;
    var r := hub.StoreDescriptorAt(d, now);
    hub.skipRateLimit := false;
    stored := r.Ok?;
  }

  /** Offers the peers what the sender's own tables list as live now. */
  method RunGossipRound(sender: RedbStorage, now: Clock, peers: seq<RedbStorage>, arrivals: seq<Arrivals>)
    returns (ghost listing: seq<Descriptor>)
    requires sender.Valid() && sender !in peers
    requires |arrivals| == |peers| && forall i, j | 0 <= i < j < |peers| :: peers[i] != peers[j]
    requires forall hub <- peers :: hub.Valid()
    modifies set hub | hub in peers
    ensures forall hub <- peers :: hub.Valid()
    ensures ListsLive(sender.slots, now, listing)
    ensures forall i | 0 <= i < |peers| ::
      peers[i].slots == ReceiveAll(peers[i].primitives, old(peers[i].slots), Batch(listing), arrivals[i])
  {
    hide ReceiveAll, Represents, CollisionFree, ListsLive;
    var descriptors := sender.AllDescriptors(now);
    listing := descriptors;
    if descriptors == [] {
      NothingToReceive(peers, arrivals);
      return;
    }
    GossipRound(descriptors, peers, arrivals);
  }

  lemma NothingToReceive(peers: seq<RedbStorage>, arrivals: seq<Arrivals>)
    requires |arrivals| == |peers|
    ensures forall i | 0 <= i < |peers| ::
      ReceiveAll(peers[i].primitives, peers[i].slots, Batch([]), arrivals[i]) == peers[i].slots
  {
  }

  /** Sends the first fifty to every peer; `arrivals` says for each peer what arrives there, and when. */
  method GossipRound(descriptors: seq<Descriptor>, peers: seq<RedbStorage>, arrivals: seq<Arrivals>)
    requires |arrivals| == |peers| && forall i, j | 0 <= i < j < |peers| :: peers[i] != peers[j]
    requires forall hub <- peers :: hub.Valid()
    modifies set hub | hub in peers
    ensures forall hub <- peers :: hub.Valid()
    ensures forall i | 0 <= i < |peers| ::
      peers[i].slots == ReceiveAll(peers[i].primitives, old(peers[i].slots), Batch(descriptors), arrivals[i])
  {
    hide ReceiveAll, Represents, CollisionFree;
    var batch := if |descriptors| <= MAX_GOSSIP_BATCH then descriptors else descriptors[..MAX_GOSSIP_BATCH];
    for i := 0 to |peers|
      invariant forall hub <- peers :: hub.Valid()
      invariant forall k | 0 <= k < i ::
        peers[k].slots == ReceiveAll(peers[k].primitives, old(peers[k].slots), batch, arrivals[k])
      invariant forall k | i <= k < |peers| :: peers[k].slots == old(peers[k].slots)
    {
      SendBatch(batch, peers[i], arrivals[i]);
    }
  }

  method SendBatch(batch: seq<Descriptor>, hub: RedbStorage, arrivals: Arrivals)
    requires hub.Valid()
    modifies hub
    ensures hub.Valid()
    ensures hub.slots == ReceiveAll(hub.primitives, old(hub.slots), batch, arrivals)
  {
    hide ReceiveOne, Represents, CollisionFree;
    for j := 0 to |batch|
      invariant hub.Valid()
      invariant hub.slots == ReceiveAll(hub.primitives, old(hub.slots), batch[..j], arrivals)
    {
      ReceiveNext(hub.primitives, old(hub.slots), batch, j, arrivals);
      var arrival := arrivals(j);
      if arrival.Some? {
        var _ := ReceiveStore(hub, batch[j], arrival.value);
      } else {
        LostIsNotReceived(hub.primitives, hub.slots, batch[j]);
      }
    }
    assert batch[..|batch|] == batch;
  }

  lemma LostIsNotReceived(p: Primitives, m: SlotMap, d: Descriptor)
    ensures ReceiveOne(p, m, d, None) == m
  {
  }

  lemma ReceiveNext(p: Primitives, m: SlotMap, batch: seq<Descriptor>, j: nat, arrivals: Arrivals)
    requires j < |batch|
    ensures ReceiveAll(p, m, batch[..j + 1], arrivals)
         == ReceiveOne(p, ReceiveAll(p, m, batch[..j], arrivals), batch[j], arrivals(j))
  {
    hide ReceiveOne;
    assert batch[..j + 1][..j] == batch[..j];
  }
}

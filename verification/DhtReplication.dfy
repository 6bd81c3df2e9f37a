/** The replication of a descriptor to the nodes closest to each of its routing keys. */
module DhtReplication {
  import opened Prelude
  import opened Descriptors
  import opened NodeSort
  import opened KBuckets
  import opened DhtLookup
  import opened SlotMachine
  import opened MemoryStore
  import BigEndian
  import Distance

  /** Adds the nodes whose ids are not among the targets yet, one by one. */
  function AddUnknown(ids: NodeIds, targets: seq<NodeInfo>, nodes: seq<NodeInfo>): seq<NodeInfo> {
    if nodes == [] then targets
    else
      var so, n := AddUnknown(ids, targets, nodes[..|nodes| - 1]), nodes[|nodes| - 1];
      if exists t <- so :: IdOfNode(ids, t) == IdOfNode(ids, n) then so else so + [n]
  }

  function FoundIn(reply: Option<Reply>): seq<NodeInfo> {
    match reply
    case Some(FoundNodes(nodes)) => nodes
    case _ => []
  }

  /** The nodes named in the answers to requests numbered from `first`. */
  function FoundFrom(net: Transport, first: nat, asked: seq<NodeInfo>): seq<NodeInfo> {
    if asked == [] then []
    else
      var n := |asked| - 1;
      FoundFrom(net, first, asked[..n]) + FoundIn(net(first + n, asked[n].addr))
  }

  lemma FoundNext(net: Transport, first: nat, asked: seq<NodeInfo>, j: nat)
    requires j < |asked|
    ensures FoundFrom(net, first, asked[..j + 1])
         == FoundFrom(net, first, asked[..j]) + FoundIn(net(first + j, asked[j].addr))
  {
    hide FoundIn;
    assert asked[..j + 1][..j] == asked[..j];
  }

  function Acks(net: Transport, first: nat, sentTo: seq<NodeInfo>): (count: nat)
    ensures count <= |sentTo|
  {
    if sentTo == [] then 0
    else
      var n := |sentTo| - 1;
      Acks(net, first, sentTo[..n]) + (if net(first + n, sentTo[n].addr) == Some(StoreAck(true)) then 1 else 0)
  }

  /** The replicas of one key: the K closest of the table's K closest and of what they named. */
  function Targets(ids: NodeIds, key: Id, snapshot: seq<NodeInfo>, learned: seq<NodeInfo>): (r: seq<NodeInfo>)
    ensures |r| <= K
  {
    Take(Sort(ids, key, AddUnknown(ids, Take(Sort(ids, key, snapshot), K), learned)), K)
  }

  function Others(ids: NodeIds, nodes: seq<NodeInfo>, own: Id): (r: seq<NodeInfo>)
    ensures |r| <= |nodes|
    ensures forall n :: n in r <==> n in nodes && IdOfNode(ids, n) != own
  {
    if nodes == [] then []
    else
      Others(ids, nodes[..|nodes| - 1], own)
      + (if IdOfNode(ids, nodes[|nodes| - 1]) != own then [nodes[|nodes| - 1]] else [])
  }

  // ----- the choice of replicas

  predicate HasId(ids: NodeIds, nodes: seq<NodeInfo>, id: Id) {
    exists n <- nodes :: IdOfNode(ids, n) == id
  }

  lemma {:induction false} AddUnknownCovers(ids: NodeIds, targets: seq<NodeInfo>, nodes: seq<NodeInfo>)
    ensures forall t <- AddUnknown(ids, targets, nodes) :: t in targets || t in nodes
    ensures forall t <- targets :: t in AddUnknown(ids, targets, nodes)
    ensures forall n <- nodes :: HasId(ids, AddUnknown(ids, targets, nodes), IdOfNode(ids, n))
  {
    hide IdOfNode;
    if nodes != [] {
      var init, last := nodes[..|nodes| - 1], nodes[|nodes| - 1];
      assert nodes == init + [last];
      AddUnknownCovers(ids, targets, init);
      var so, all := AddUnknown(ids, targets, init), AddUnknown(ids, targets, nodes);
      forall n <- nodes ensures HasId(ids, all, IdOfNode(ids, n)) {
        if n in init {
          var t :| t in so && IdOfNode(ids, t) == IdOfNode(ids, n);
          assert t in all;
        } else if HasId(ids, so, IdOfNode(ids, last)) {
        } else {
          assert last in all;
        }
      }
    }
  }

  /** Of equally identified nodes it does not matter which one is looked at. */
  lemma SameIdSameDistance(ids: NodeIds, key: Id, a: NodeInfo, b: NodeInfo)
    requires IdOfNode(ids, a) == IdOfNode(ids, b)
    ensures Dist(ids, key, a) == Dist(ids, key, b)
  {
  }

  /**
   No replica is farther from the key than any node, of the table or of an answer, whose
   id was not chosen.
   */
  lemma ReplicasAreClosest(
    ids: NodeIds, key: Id, snapshot: seq<NodeInfo>, learned: seq<NodeInfo>, chosen: NodeInfo, left: NodeInfo)
    requires chosen in Targets(ids, key, snapshot, learned)
    requires left in snapshot || left in learned
    requires !HasId(ids, Targets(ids, key, snapshot, learned), IdOfNode(ids, left))
    ensures Dist(ids, key, chosen) <= Dist(ids, key, left)
    ensures chosen in snapshot || chosen in learned
    ensures |Targets(ids, key, snapshot, learned)| == K
  {
    hide Dist, Sort, IdOfNode, AddUnknown;
    var closest := Take(Sort(ids, key, snapshot), K);
    var known := AddUnknown(ids, closest, learned);
    AddUnknownCovers(ids, closest, learned);
    TakenWereThere(ids, key, known, chosen);
    if chosen in closest {
      TakenWereThere(ids, key, snapshot, chosen);
    }
    if left in learned {
      var twin :| twin in known && IdOfNode(ids, twin) == IdOfNode(ids, left);
      SameIdSameDistance(ids, key, twin, left);
      TakenAreClosest(ids, key, known, K, chosen, twin);
      LeftOutMeansFull(ids, key, known, K, twin);
    } else if left in closest {
      TakenAreClosest(ids, key, known, K, chosen, left);
      LeftOutMeansFull(ids, key, known, K, left);
    } else {
      OutsideTheClosest(ids, key, snapshot, learned, chosen, left);
    }
  }

  lemma TakenWereThere(ids: NodeIds, key: Id, nodes: seq<NodeInfo>, n: NodeInfo)
    requires n in Take(Sort(ids, key, nodes), K)
    ensures n in nodes
  {
    hide Sort;
    SortIsStable(ids, key, nodes, 0);
    assert n in multiset(Sort(ids, key, nodes));
  }

  predicate FirstWithin(ids: NodeIds, key: Id, s: seq<NodeInfo>, k: nat, v: nat) {
    k <= |s| && forall i | 0 <= i < k :: Dist(ids, key, s[i]) <= v
  }

  lemma {:induction false} InsertKeepsWithin(ids: NodeIds, key: Id, s: seq<NodeInfo>, x: NodeInfo, k: nat, v: nat)
    requires FirstWithin(ids, key, s, k, v)
    ensures FirstWithin(ids, key, Insert(ids, key, s, x), k, v)
  {
    hide Dist;
    if k > 0 && Dist(ids, key, s[0]) <= Dist(ids, key, x) {
      InsertKeepsWithin(ids, key, s[1..], x, k - 1, v);
    }
  }

  lemma {:induction false} InsertAllKeepsWithin(
    ids: NodeIds, key: Id, s: seq<NodeInfo>, xs: seq<NodeInfo>, k: nat, v: nat)
    requires FirstWithin(ids, key, s, k, v)
    ensures FirstWithin(ids, key, InsertAll(ids, key, s, xs), k, v)
    decreases |xs|
  {
    hide FirstWithin, Insert;
    if xs != [] {
      var init := xs[..|xs| - 1];
      InsertAllKeepsWithin(ids, key, s, init, k, v);
      InsertKeepsWithin(ids, key, InsertAll(ids, key, s, init), xs[|xs| - 1], k, v);
    }
  }

  lemma {:induction false} AddUnknownExtends(ids: NodeIds, targets: seq<NodeInfo>, nodes: seq<NodeInfo>)
    ensures targets <= AddUnknown(ids, targets, nodes)
  {
    hide IdOfNode;
    if nodes != [] {
      AddUnknownExtends(ids, targets, nodes[..|nodes| - 1]);
    }
  }

  /** A node of the table outside its K closest is no closer than any of those K, nor than what displaced them. */
  lemma OutsideTheClosest(
    ids: NodeIds, key: Id, snapshot: seq<NodeInfo>, learned: seq<NodeInfo>, chosen: NodeInfo, left: NodeInfo)
    requires chosen in Targets(ids, key, snapshot, learned)
    requires left in snapshot && left !in Take(Sort(ids, key, snapshot), K)
    ensures Dist(ids, key, chosen) <= Dist(ids, key, left)
    ensures |Targets(ids, key, snapshot, learned)| == K
  {
    hide Dist, Sort, IdOfNode, AddUnknown;
    var sorted := Sort(ids, key, snapshot);
    var closest := Take(sorted, K);
    var known := AddUnknown(ids, closest, learned);
    var v := Dist(ids, key, left);
    SortIsStable(ids, key, snapshot, 0);
    assert left in multiset(sorted) && |closest| == K;
    assert FirstWithin(ids, key, closest, K, v) by {
      forall i | 0 <= i < K ensures Dist(ids, key, closest[i]) <= v {
        TakenAreClosest(ids, key, snapshot, K, closest[i], left);
      }
    }
    AddUnknownExtends(ids, closest, learned);
    var extra := known[K..];
    assert known == closest + extra;
    SortOfConcat(ids, key, closest, extra);
    SortOfSorted(ids, key, closest);
    InsertAllKeepsWithin(ids, key, closest, extra, K, v);
    assert FirstWithin(ids, key, Sort(ids, key, known), K, v);
  }

  /** No node is appended whose id stands earlier in the list. */
  lemma {:induction false} NoIdAppendedTwice(
    ids: NodeIds, targets: seq<NodeInfo>, nodes: seq<NodeInfo>, i: nat, k: nat)
    requires i < k < |AddUnknown(ids, targets, nodes)| && k >= |targets|
    ensures IdOfNode(ids, AddUnknown(ids, targets, nodes)[i]) != IdOfNode(ids, AddUnknown(ids, targets, nodes)[k])
  {
    hide IdOfNode;
    if nodes != [] {
      var init := AddUnknown(ids, targets, nodes[..|nodes| - 1]);
      if k < |init| {
        NoIdAppendedTwice(ids, targets, nodes[..|nodes| - 1], i, k);
      } else {
        assert init[i] in init;
      }
    }
  }

  // ----- the loop over the routing keys

  /** What was done for one key: the table then, whom it asked, what it learned, where it sent STOREs. */
  datatype KeyStore = KeyStore(
    snapshot: seq<NodeInfo>,
    first: nat,
    asked: seq<NodeInfo>,
    sentTo: seq<NodeInfo>)

  function Learned(net: Transport, step: KeyStore): seq<NodeInfo> {
    FoundFrom(net, step.first, step.asked)
  }

  function Stored(net: Transport, step: KeyStore): nat {
    Acks(net, step.first + |step.asked|, step.sentTo)
  }

  /** STOREs went to the chosen replicas and to no one else, never to the node itself. */
  predicate KeyServed(ids: NodeIds, own: Id, alpha: nat, key: Id, net: Transport, step: KeyStore) {
    && step.asked == Take(Take(Sort(ids, key, step.snapshot), K), alpha)
    && step.sentTo == Others(ids, Targets(ids, key, step.snapshot, Learned(net, step)), own)
  }

  /** A reply to FIND_NODE that names the node. */
  predicate Found(reply: Option<Reply>, n: NodeInfo) {
    reply.Some? && reply.value.FoundNodes? && n in reply.value.found
  }

  /** One reply is taken as it is, in its order; anything but a reply to FIND_NODE brings nothing. */
  lemma OneReply(net: Transport, first: nat, node: NodeInfo)
    ensures FoundFrom(net, first, [node]) ==
      match net(first, node.addr) { case Some(FoundNodes(nodes)) => nodes case _ => [] }
  {
    assert [node][..0] == [] && FoundFrom(net, first, []) == [];
  }

  predicate FoundAt(net: Transport, first: nat, asked: seq<NodeInfo>, j: nat, n: NodeInfo)
    requires j < |asked|
  {
    Found(net(first + j, asked[j].addr), n)
  }

  lemma LastFound(net: Transport, first: nat, asked: seq<NodeInfo>, n: NodeInfo)
    requires asked != []
    ensures n in FoundFrom(net, first, asked)
       <==> n in FoundFrom(net, first, asked[..|asked| - 1]) || FoundAt(net, first, asked, |asked| - 1, n)
  {
    hide FoundIn, Found;
    var last := |asked| - 1;
    var reply := net(first + last, asked[last].addr);
    FoundInExactly(reply, n);
    assert FoundFrom(net, first, asked) == FoundFrom(net, first, asked[..last]) + FoundIn(reply);
    hide FoundFrom;
  }

  lemma FoundInExactly(reply: Option<Reply>, n: NodeInfo)
    ensures n in FoundIn(reply) <==> Found(reply, n)
  {
  }

  /** What was learned was named in some reply, and everything named in a reply was learned. */
  lemma {:induction false} FoundExactly(net: Transport, first: nat, asked: seq<NodeInfo>, n: NodeInfo)
    ensures n in FoundFrom(net, first, asked) <==> exists j | 0 <= j < |asked| :: FoundAt(net, first, asked, j, n)
  {
    if asked != [] {
      var last := |asked| - 1;
      var init := asked[..last];
      FoundExactly(net, first, init, n);
      LastFound(net, first, asked, n);
      forall j | 0 <= j < last ensures FoundAt(net, first, asked, j, n) == FoundAt(net, first, init, j, n) {
      }
      hide FoundFrom, FoundAt;
      if j :| 0 <= j < last && FoundAt(net, first, init, j, n) {
        assert FoundAt(net, first, asked, j, n);
      }
    }
  }

  /** A node of the table, or named in some reply. */
  ghost predicate HeardOf(net: Transport, step: KeyStore, n: NodeInfo) {
    n in step.snapshot || exists j | 0 <= j < |step.asked| :: FoundAt(net, step.first, step.asked, j, n)
  }

  /**
   No node that was sent a STORE is farther from the key than any other node heard of, in the
   table or in a reply, whose id was sent none and is not the own one; and each was heard of.
   */
  lemma StoredAtTheClosest(
    ids: NodeIds, own: Id, alpha: nat, key: Id, net: Transport, step: KeyStore, chosen: NodeInfo, left: NodeInfo)
    requires KeyServed(ids, own, alpha, key, net, step) && chosen in step.sentTo && HeardOf(net, step, left)
    requires IdOfNode(ids, left) != own && !HasId(ids, step.sentTo, IdOfNode(ids, left))
    ensures Dist(ids, key, chosen) <= Dist(ids, key, left)
    ensures HeardOf(net, step, chosen) && IdOfNode(ids, chosen) != own
    ensures |step.sentTo| == K || HasId(ids, Targets(ids, key, step.snapshot, Learned(net, step)), own)
  {
    hide Targets, FoundFrom, FoundAt, IdOfNode, Dist;
    FoundExactly(net, step.first, step.asked, left);
    FoundExactly(net, step.first, step.asked, chosen);
    var targets := Targets(ids, key, step.snapshot, Learned(net, step));
    assert forall t <- targets :: t in step.sentTo || IdOfNode(ids, t) == own;
    ReplicasAreClosest(ids, key, step.snapshot, Learned(net, step), chosen, left);
    if !HasId(ids, targets, own) {
      AllAreOthers(ids, targets, own);
    }
  }

  lemma {:induction false} AllAreOthers(ids: NodeIds, nodes: seq<NodeInfo>, own: Id)
    requires forall i | 0 <= i < |nodes| :: IdOfNode(ids, nodes[i]) != own
    ensures Others(ids, nodes, own) == nodes
  {
    hide IdOfNode, Others;
    if nodes == [] {
      NothingSent(ids, own, (_, _) => None, 0);
    } else {
      var init, last := nodes[..|nodes| - 1], nodes[|nodes| - 1];
      AllAreOthers(ids, init, own);
      OthersNext(ids, init, last, own);
      assert nodes == init + [last];
    }
  }

  /** FIND_NODE goes to the closest nodes of the table: alpha of them, if any but the K closest is left out. */
  lemma AskedForNodesAreClosest(
    ids: NodeIds, own: Id, alpha: nat, key: Id, net: Transport, step: KeyStore, x: NodeInfo, left: NodeInfo)
    requires KeyServed(ids, own, alpha, key, net, step)
    requires x in step.asked && left in step.snapshot && left !in step.asked
    ensures x in step.snapshot && Dist(ids, key, x) <= Dist(ids, key, left)
    ensures |step.asked| == alpha || |step.asked| == K
  {
    hide Sort, Dist;
    var k := if alpha < K then alpha else K;
    assert step.asked == Take(Sort(ids, key, step.snapshot), k);
    TakenAreClosest(ids, key, step.snapshot, k, x, left);
    LeftOutMeansFull(ids, key, step.snapshot, k, left);
  }

  /** Every replica but the node itself stands among the others as often as among the replicas. */
  lemma {:induction false} OthersExactly(ids: NodeIds, nodes: seq<NodeInfo>, own: Id, n: NodeInfo)
    ensures multiset(Others(ids, nodes, own))[n] == if IdOfNode(ids, n) != own then multiset(nodes)[n] else 0
  {
    hide IdOfNode;
    if nodes != [] {
      var init := nodes[..|nodes| - 1];
      OthersExactly(ids, init, own, n);
      assert nodes == init + [nodes[|nodes| - 1]];
    }
  }

  /** Everything the earlier steps learned, in order. */
  function LearnedAll(net: Transport, steps: seq<KeyStore>): seq<NodeInfo> {
    if steps == [] then []
    else LearnedAll(net, steps[..|steps| - 1]) + Learned(net, steps[|steps| - 1])
  }

  /** The number of requests sent in these steps. */
  function Requests(steps: seq<KeyStore>): nat {
    if steps == [] then 0
    else
      var last := steps[|steps| - 1];
      Requests(steps[..|steps| - 1]) + |last.asked| + |last.sentTo|
  }

  /** A step starts where the earlier ones ended, from the table with all they learned. */
  predicate Follows(
    ids: NodeIds, own: Id, net: Transport, start: Table, before: seq<KeyStore>, step: KeyStore)
    requires |start.buckets| == NUM_BUCKETS
  {
    && step.first == Requests(before)
    && step.snapshot == Flatten(AddAll(ids, own, start, LearnedAll(net, before)).buckets)
  }

  lemma StepsNext(
    ids: NodeIds, own: Id, net: Transport, start: Table, steps: seq<KeyStore>, step: KeyStore)
    requires |start.buckets| == NUM_BUCKETS
    ensures LearnedAll(net, steps + [step]) == LearnedAll(net, steps) + Learned(net, step)
    ensures AddAll(ids, own, start, LearnedAll(net, steps + [step]))
         == AddAll(ids, own, AddAll(ids, own, start, LearnedAll(net, steps)), Learned(net, step))
    ensures Requests(steps + [step]) == Requests(steps) + |step.asked| + |step.sentTo|
    ensures TotalStored(net, steps + [step]) == TotalStored(net, steps) + Stored(net, step)
  {
    hide AddAll, Learned, Stored;
    assert (steps + [step])[..|steps|] == steps;
    AddAllConcat(ids, own, start, LearnedAll(net, steps), Learned(net, step));
  }

  lemma NoSteps(ids: NodeIds, own: Id, alpha: nat, keys: seq<Id>, net: Transport, start: Table)
    requires |start.buckets| == NUM_BUCKETS
    ensures Progress(ids, own, alpha, keys, net, start, [], start, 0, 0)
  {
  }

  function TotalStored(net: Transport, steps: seq<KeyStore>): nat {
    if steps == [] then 0
    else TotalStored(net, steps[..|steps| - 1]) + Stored(net, steps[|steps| - 1])
  }

  lemma {:induction false} TotalBounded(
    ids: NodeIds, own: Id, alpha: nat, keys: seq<Id>, net: Transport, start: Table, steps: seq<KeyStore>)
    requires |start.buckets| == NUM_BUCKETS && Trace(ids, own, alpha, keys, net, start, steps)
    ensures TotalStored(net, steps) <= K * |steps|
  {
    hide Trace, Stored;
    if steps != [] {
      var n := |steps| - 1;
      TraceInit(ids, own, alpha, keys, net, start, steps);
      TotalBounded(ids, own, alpha, keys, net, start, steps[..n]);
      StoredBounded(ids, own, alpha, keys[n], net, steps[n]);
    }
  }

  lemma TraceInit(
    ids: NodeIds, own: Id, alpha: nat, keys: seq<Id>, net: Transport, start: Table, steps: seq<KeyStore>)
    requires |start.buckets| == NUM_BUCKETS && Trace(ids, own, alpha, keys, net, start, steps) && steps != []
    ensures Trace(ids, own, alpha, keys, net, start, steps[..|steps| - 1])
    ensures |steps| <= |keys| && KeyServed(ids, own, alpha, keys[|steps| - 1], net, steps[|steps| - 1])
  {
    hide KeyServed, Follows;
    var init := steps[..|steps| - 1];
    forall k | 0 <= k < |init| ensures steps[..k] == init[..k] {
    }
  }

  lemma StoredBounded(ids: NodeIds, own: Id, alpha: nat, key: Id, net: Transport, step: KeyStore)
    requires KeyServed(ids, own, alpha, key, net, step)
    ensures Stored(net, step) <= K
  {
    hide Targets, Acks, Others, Sort, Take;
  }

  /** Each step serves its key and starts where the earlier ones ended. */
  ghost predicate Trace(
    ids: NodeIds, own: Id, alpha: nat, keys: seq<Id>, net: Transport, start: Table, steps: seq<KeyStore>)
    requires |start.buckets| == NUM_BUCKETS
  {
    && |steps| <= |keys|
    && (forall i | 0 <= i < |steps| :: KeyServed(ids, own, alpha, keys[i], net, steps[i]))
    && (forall i | 0 <= i < |steps| :: Follows(ids, own, net, start, steps[..i], steps[i]))
  }

  /** After `steps`: how many requests were sent, how many STOREs acknowledged, and the table as it has become. */
  ghost predicate Progress(
    ids: NodeIds, own: Id, alpha: nat, keys: seq<Id>, net: Transport, start: Table, steps: seq<KeyStore>,
    table: Table, sent: nat, total: nat)
    requires |start.buckets| == NUM_BUCKETS
  {
    && Trace(ids, own, alpha, keys, net, start, steps)
    && table == AddAll(ids, own, start, LearnedAll(net, steps))
    && sent == Requests(steps) && total == TotalStored(net, steps)
  }

  lemma ProgressNext(
    ids: NodeIds, own: Id, alpha: nat, keys: seq<Id>, net: Transport, start: Table, before: seq<KeyStore>,
    table: Table, sent: nat, total: nat, step: KeyStore, table': Table, sent': nat, total': nat)
    requires |start.buckets| == NUM_BUCKETS && |table.buckets| == NUM_BUCKETS && |before| < |keys|
    requires Progress(ids, own, alpha, keys, net, start, before, table, sent, total)
    requires step.first == sent && step.snapshot == Flatten(table.buckets)
    requires KeyServed(ids, own, alpha, keys[|before|], net, step)
    requires table' == AddAll(ids, own, table, Learned(net, step))
    requires sent' == sent + |step.asked| + |step.sentTo| && total' == total + Stored(net, step)
    ensures Progress(ids, own, alpha, keys, net, start, before + [step], table', sent', total')
  {
    hide KeyServed, AddAll, Learned, Flatten, LearnedAll, Stored;
    StepsNext(ids, own, net, start, before, step);
    assert Follows(ids, own, net, start, before, step);
    TraceNext(ids, own, alpha, keys, net, start, before, step);
    hide Follows, Trace, Requests, TotalStored;
  }

  lemma TraceNext(
    ids: NodeIds, own: Id, alpha: nat, keys: seq<Id>, net: Transport, start: Table,
    before: seq<KeyStore>, step: KeyStore)
    requires |start.buckets| == NUM_BUCKETS && |before| < |keys|
    requires Trace(ids, own, alpha, keys, net, start, before)
    requires KeyServed(ids, own, alpha, keys[|before|], net, step) && Follows(ids, own, net, start, before, step)
    ensures Trace(ids, own, alpha, keys, net, start, before + [step])
  {
    hide KeyServed, Follows;
    var steps := before + [step];
    forall k | 0 <= k < |steps| ensures Follows(ids, own, net, start, steps[..k], steps[k]) {
      assert steps[..k] == before[..k];
      assert before[..|before|] == before;
    }
  }

  lemma {:induction false} NumbersAscend(steps: seq<KeyStore>, i: nat, k: nat)
    requires i < k <= |steps|
    ensures Requests(steps[..i]) + |steps[i].asked| + |steps[i].sentTo| <= Requests(steps[..k])
  {
    assert steps[..k][..k - 1] == steps[..k - 1];
    if i < k - 1 {
      NumbersAscend(steps, i, k - 1);
    }
  }

  lemma {:induction false} LearnedEarlier(net: Transport, steps: seq<KeyStore>, i: nat, n: NodeInfo)
    requires i < |steps| && n in Learned(net, steps[i])
    ensures n in LearnedAll(net, steps)
  {
    hide Learned;
    var last := |steps| - 1;
    if i < last {
      LearnedEarlier(net, steps[..last], i, n);
    }
  }

  /** A table that has everyone of `start`, and the node unless its bucket is full. */
  ghost predicate Knows(ids: NodeIds, own: Id, start: Table, t: Table, n: NodeInfo)
    requires IdOfNode(ids, n) != own
  {
    && Inv(ids, own, t)
    && (forall who | Member(start, who) :: Member(t, who))
    && (Member(t, n.identity) || Full(ids, own, t, n))
  }

  lemma KnownAfter(ids: NodeIds, own: Id, start: Table, learned: seq<NodeInfo>, n: NodeInfo)
    requires Inv(ids, own, start) && n in learned && IdOfNode(ids, n) != own
    ensures Knows(ids, own, start, AddAll(ids, own, start, learned), n)
  {
    assert |start.buckets| == NUM_BUCKETS;
    hide Inv, AddAll, Member, Full;
    forall who | Member(start, who) ensures Member(AddAll(ids, own, start, learned), who) {
      AddAllMembersExactly(ids, own, start, learned, who);
    }
    AddAllMembersExactly(ids, own, start, learned, n.identity);
  }

  lemma FollowsAt(
    ids: NodeIds, own: Id, alpha: nat, keys: seq<Id>, net: Transport, start: Table, steps: seq<KeyStore>, k: nat)
    requires |start.buckets| == NUM_BUCKETS && Trace(ids, own, alpha, keys, net, start, steps) && k < |steps|
    ensures steps[k].first == Requests(steps[..k])
    ensures steps[k].snapshot == Flatten(AddAll(ids, own, start, LearnedAll(net, steps[..k])).buckets)
  {
    hide KeyServed, AddAll, LearnedAll, Flatten, Requests;
    assert Follows(ids, own, net, start, steps[..k], steps[k]);
  }

  /** No request number is used twice. */
  lemma NumbersAreFresh(
    ids: NodeIds, own: Id, alpha: nat, keys: seq<Id>, net: Transport, start: Table, steps: seq<KeyStore>,
    i: nat, k: nat)
    requires |start.buckets| == NUM_BUCKETS && Trace(ids, own, alpha, keys, net, start, steps) && i < k < |steps|
    ensures steps[i].first + |steps[i].asked| + |steps[i].sentTo| <= steps[k].first
  {
    FollowsAt(ids, own, alpha, keys, net, start, steps, i);
    FollowsAt(ids, own, alpha, keys, net, start, steps, k);
    hide *;
    NumbersAscend(steps, i, k);
  }

  /** The table of a later key knows everyone named in a reply for an earlier one. */
  lemma EarlierAnswersAreKnown(
    ids: NodeIds, own: Id, alpha: nat, keys: seq<Id>, net: Transport, start: Table, steps: seq<KeyStore>,
    i: nat, k: nat, n: NodeInfo)
    requires Inv(ids, own, start) && Trace(ids, own, alpha, keys, net, start, steps)
    requires i < k < |steps| && n in Learned(net, steps[i]) && IdOfNode(ids, n) != own
    ensures exists t: Table :: steps[k].snapshot == Flatten(t.buckets) && Knows(ids, own, start, t, n)
  {
    FollowsAt(ids, own, alpha, keys, net, start, steps, k);
    hide *;
    assert steps[..k][i] == steps[i];
    LearnedEarlier(net, steps[..k], i, n);
    KnownAfter(ids, own, start, LearnedAll(net, steps[..k]), n);
  }

  /** The routing keys of a descriptor as points; the distance looks at the first 32 bytes, and needs as many. */
  function PointsOf(keys: seq<Hash>): (points: seq<Id>)
    requires forall key <- keys :: |key.digest| >= Distance.KEY_BYTES
    ensures |points| == |keys|
    ensures forall i | 0 <= i < |keys| :: points[i] == BigEndian.Value(keys[i].digest[..Distance.KEY_BYTES])
  {
    seq(|keys|, i requires 0 <= i < |keys| => Distance.PointOf(keys[i].digest[..Distance.KEY_BYTES]))
  }

  /** Replicates a descriptor to the closest nodes of each of its keys, and then stores it locally. */
  method IterativeStore(node: DhtNode, store: DescriptorStore, d: Descriptor, net: Transport, now: Clock)
    returns (total: nat, ghost steps: seq<KeyStore>)
    requires node.Valid() && store.Valid()
    requires forall key <- d.routingKeys :: |key.digest| >= Distance.KEY_BYTES
    modifies node.table, store, store.rateLimiter
    ensures node.Valid() && store.Valid()
    ensures |steps| == |d.routingKeys|
    ensures Trace(node.ids, node.table.localId, node.alpha, PointsOf(d.routingKeys), net,
                  old(node.table.Abstract()), steps)
    ensures node.table.Abstract()
         == AddAll(node.ids, node.table.localId, old(node.table.Abstract()), LearnedAll(net, steps))
    ensures total == TotalStored(net, steps) <= K * |d.routingKeys|
    ensures store.Abstract() == Store(store.primitives, old(store.Abstract()), d, now).state
  {
    total, steps := Replicate(node, PointsOf(d.routingKeys), net);
    hide *;
    var _ := store.StoreDescriptorAt(d, now);
  }

  /** For each key in turn: asks the closest nodes, and sends STOREs to the replicas; returns how many acknowledged. */
  method Replicate(node: DhtNode, keys: seq<Id>, net: Transport)
    returns (total: nat, ghost steps: seq<KeyStore>)
    requires node.Valid()
    modifies node.table
    ensures node.Valid()
    ensures |steps| == |keys|
    ensures Trace(node.ids, node.table.localId, node.alpha, keys, net, old(node.table.Abstract()), steps)
    ensures node.table.Abstract()
         == AddAll(node.ids, node.table.localId, old(node.table.Abstract()), LearnedAll(net, steps))
    ensures total == TotalStored(net, steps) <= K * |keys|
  {
    ghost var start, own := node.table.Abstract(), node.table.localId;
    node.table.InvHasBuckets();
    total, steps := 0, [];
    NoSteps(node.ids, own, node.alpha, keys, net, start);
    assert |start.buckets| == NUM_BUCKETS;
    hide *;
    var sent := 0;
    for i := 0 to |keys|
      invariant node.Valid() && |steps| == i
      invariant Progress(node.ids, own, node.alpha, keys, net, start, steps, node.table.Abstract(), sent, total)
    {
      total, sent, steps := ServeNext(node, keys, i, net, sent, total, start, steps);
    }
    Finished(node.ids, own, node.alpha, keys, net, start, steps, node.table.Abstract(), sent, total);
  }

  /** Serves key `i`, after those of `steps`. */
  method ServeNext(
    node: DhtNode, keys: seq<Id>, i: nat, net: Transport, sent: nat, total: nat,
    ghost start: Table, ghost steps: seq<KeyStore>)
    returns (newTotal: nat, newSent: nat, ghost newSteps: seq<KeyStore>)
    requires node.Valid() && |start.buckets| == NUM_BUCKETS && |steps| == i < |keys|
    requires Progress(node.ids, node.table.localId, node.alpha, keys, net, start, steps,
                      node.table.Abstract(), sent, total)
    modifies node.table
    ensures node.Valid() && |newSteps| == |steps| + 1
    ensures Progress(node.ids, node.table.localId, node.alpha, keys, net, start, newSteps,
                     node.table.Abstract(), newSent, newTotal)
  {
    ghost var before := node.table.Abstract();
    node.table.InvHasBuckets();
    assert |before.buckets| == NUM_BUCKETS;
    hide *;
    var stored;
    ghost var step;
    stored, newSent, step := StoreAtKey(node, keys[i], net, sent);
    newTotal := total + stored;
    newSteps := steps + [step];
    ProgressNext(node.ids, node.table.localId, node.alpha, keys, net, start, steps, before, sent, total,
                 step, node.table.Abstract(), newSent, newTotal);
  }

  lemma Finished(
    ids: NodeIds, own: Id, alpha: nat, keys: seq<Id>, net: Transport, start: Table, steps: seq<KeyStore>,
    table: Table, sent: nat, total: nat)
    requires |start.buckets| == NUM_BUCKETS && |steps| == |keys|
    requires Progress(ids, own, alpha, keys, net, start, steps, table, sent, total)
    ensures Trace(ids, own, alpha, keys, net, start, steps)
    ensures table == AddAll(ids, own, start, LearnedAll(net, steps))
    ensures total == TotalStored(net, steps) <= K * |keys|
  {
    hide Trace, AddAll, LearnedAll, TotalStored;
    TotalBounded(ids, own, alpha, keys, net, start, steps);
  }

  method StoreAtKey(node: DhtNode, key: Id, net: Transport, first: nat)
    returns (stored: nat, next: nat, ghost step: KeyStore)
    requires node.Valid()
    modifies node.table
    ensures node.Valid()
    ensures step.first == first && next == first + |step.asked| + |step.sentTo|
    ensures step.snapshot == Flatten(old(node.table.Abstract()).buckets)
    ensures KeyServed(node.ids, node.table.localId, node.alpha, key, net, step)
    ensures stored == Stored(net, step)
    ensures node.table.Abstract()
         == AddAll(node.ids, node.table.localId, old(node.table.Abstract()), Learned(net, step))
  {
    hide AddAll, Inv, Sort, Take, Dist, AddUnknown, Others, Acks, FoundFrom, Flatten;
    ghost var snapshot := Flatten(node.table.buckets);
    var closest := node.table.ClosestNodes(key, K);
    var asked := Take(closest, node.alpha);
    var known := QueryForNodes(node, closest, asked, net, first);
    var targets := Take(Sort(node.ids, key, known), K);
    var sentTo;
    stored, sentTo := SendStores(node, targets, net, first + |asked|);
    next := first + |asked| + |sentTo|;
    step := KeyStore(snapshot, first, asked, sentTo);
  }

  method QueryForNodes(node: DhtNode, closest: seq<NodeInfo>, asked: seq<NodeInfo>, net: Transport, first: nat)
    returns (targets: seq<NodeInfo>)
    requires node.Valid()
    modifies node.table
    ensures node.Valid()
    ensures targets == AddUnknown(node.ids, closest, FoundFrom(net, first, asked))
    ensures node.table.Abstract()
         == AddAll(node.ids, node.table.localId, old(node.table.Abstract()), FoundFrom(net, first, asked))
  {
    ghost var start, own := node.table.Abstract(), node.table.localId;
    node.table.InvHasBuckets();
    AddAllNone(node.ids, own, start);
    AddNothing(node.ids, closest);
    assert FoundFrom(net, first, asked[..0]) == [];
    hide AddUnknown, AddAll, Inv, FoundFrom, FoundIn;
    targets := closest;
    for j := 0 to |asked|
      invariant node.Valid()
      invariant node.table.Abstract() == AddAll(node.ids, own, start, FoundFrom(net, first, asked[..j]))
      invariant targets == AddUnknown(node.ids, closest, FoundFrom(net, first, asked[..j]))
    {
      var found := FoundIn(net(first + j, asked[j].addr));
      node.Learn(found);
      FoundNext(net, first, asked, j);
      AddUnknownConcat(node.ids, closest, FoundFrom(net, first, asked[..j]), found);
      AddAllConcat(node.ids, own, start, FoundFrom(net, first, asked[..j]), found);
      targets := PushUnknown(node.ids, targets, found);
    }
    assert asked[..|asked|] == asked;
  }

  lemma AddNothing(ids: NodeIds, targets: seq<NodeInfo>)
    ensures AddUnknown(ids, targets, []) == targets
  {
  }

  lemma {:induction false} AddUnknownConcat(ids: NodeIds, targets: seq<NodeInfo>, a: seq<NodeInfo>, b: seq<NodeInfo>)
    ensures AddUnknown(ids, targets, a + b) == AddUnknown(ids, AddUnknown(ids, targets, a), b)
  {
    hide IdOfNode;
    if b == [] {
      assert a + b == a;
    } else {
      var init := b[..|b| - 1];
      AddUnknownConcat(ids, targets, a, init);
      assert (a + b)[..|a + b| - 1] == a + init;
    }
  }

  method PushUnknown(ids: NodeIds, before: seq<NodeInfo>, nodes: seq<NodeInfo>) returns (targets: seq<NodeInfo>)
    ensures targets == AddUnknown(ids, before, nodes)
  {
    hide IdOfNode;
    targets := before;
    for i := 0 to |nodes|
      invariant targets == AddUnknown(ids, before, nodes[..i])
    {
      assert nodes[..i + 1][..i] == nodes[..i];
      if !exists t <- targets :: IdOfNode(ids, t) == IdOfNode(ids, nodes[i]) {
        targets := targets + [nodes[i]];
      }
    }
    assert nodes[..|nodes|] == nodes;
  }

  lemma NothingSent(ids: NodeIds, own: Id, net: Transport, first: nat)
    ensures Others(ids, [], own) == [] && Acks(net, first, []) == 0
  {
  }

  lemma OthersNext(ids: NodeIds, nodes: seq<NodeInfo>, node: NodeInfo, own: Id)
    ensures Others(ids, nodes + [node], own)
         == Others(ids, nodes, own) + (if IdOfNode(ids, node) != own then [node] else [])
  {
    hide IdOfNode;
    assert (nodes + [node])[..|nodes|] == nodes;
  }

  lemma AcksNext(net: Transport, first: nat, sentTo: seq<NodeInfo>, node: NodeInfo)
    ensures Acks(net, first, sentTo + [node])
         == Acks(net, first, sentTo) + (if net(first + |sentTo|, node.addr) == Some(StoreAck(true)) then 1 else 0)
  {
    assert (sentTo + [node])[..|sentTo|] == sentTo;
  }

  method SendStores(node: DhtNode, targets: seq<NodeInfo>, net: Transport, first: nat)
    returns (stored: nat, sentTo: seq<NodeInfo>)
    ensures sentTo == Others(node.ids, targets, node.ids(node.identity.publicKey))
    ensures stored == Acks(net, first, sentTo)
  {
    hide IdOfNode, Others, Acks;
    var own := node.ids(node.identity.publicKey);
    stored, sentTo := 0, [];
    NothingSent(node.ids, own, net, first);
    for i := 0 to |targets|
      invariant sentTo == Others(node.ids, targets[..i], own)
      invariant stored == Acks(net, first, sentTo)
    {
      OthersNext(node.ids, targets[..i], targets[i], own);
      AcksNext(net, first, sentTo, targets[i]);
      assert targets[..i + 1] == targets[..i] + [targets[i]];
      if IdOfNode(node.ids, targets[i]) == own {
        continue;
      }
      var reply := net(first + |sentTo|, targets[i].addr);
      if reply == Some(StoreAck(true)) {
        stored := stored + 1;
      }
      sentTo := sentTo + [targets[i]];
    }
    assert targets[..|targets|] == targets;
  }

  // ----- what was stored is found

  predicate AckAt(net: Transport, first: nat, sentTo: seq<NodeInfo>, k: nat)
    requires k < |sentTo|
  {
    net(first + k, sentTo[k].addr) == Some(StoreAck(true))
  }

  /** A STORE of this step to this address was acknowledged. */
  ghost predicate Acked(net: Transport, step: KeyStore, addr: NodeAddr) {
    exists k | 0 <= k < |step.sentTo| ::
      step.sentTo[k].addr == addr && AckAt(net, step.first + |step.asked|, step.sentTo, k)
  }

  lemma {:induction false} CountedMeansAcked(net: Transport, first: nat, sentTo: seq<NodeInfo>)
    ensures Acks(net, first, sentTo) > 0 <==> exists k | 0 <= k < |sentTo| :: AckAt(net, first, sentTo, k)
  {
    if sentTo != [] {
      var n := |sentTo| - 1;
      var init := sentTo[..n];
      CountedMeansAcked(net, first, init);
      assert Acks(net, first, sentTo) > 0 <==> Acks(net, first, init) > 0 || AckAt(net, first, sentTo, n);
      forall k | 0 <= k < n ensures AckAt(net, first, sentTo, k) == AckAt(net, first, init, k) {
      }
      hide AckAt, Acks;
      if k :| 0 <= k < n && AckAt(net, first, init, k) {
        assert AckAt(net, first, sentTo, k);
      }
    }
  }

  function AckPositions(net: Transport, first: nat, sentTo: seq<NodeInfo>): set<nat> {
    set k: nat | k < |sentTo| && AckAt(net, first, sentTo, k)
  }

  lemma LastPosition(net: Transport, first: nat, sentTo: seq<NodeInfo>)
    requires sentTo != []
    ensures var n := |sentTo| - 1;
            AckPositions(net, first, sentTo)
              == AckPositions(net, first, sentTo[..n]) + if AckAt(net, first, sentTo, n) then {n} else {}
  {
    var n := |sentTo| - 1;
    forall k: nat | k < n ensures AckAt(net, first, sentTo, k) == AckAt(net, first, sentTo[..n], k) {
    }
    hide AckAt;
  }

  /** The count is the number of STOREs answered with a positive acknowledgement. */
  lemma {:induction false} AcksExactly(net: Transport, first: nat, sentTo: seq<NodeInfo>)
    ensures Acks(net, first, sentTo) == |AckPositions(net, first, sentTo)|
  {
    if sentTo != [] {
      var n := |sentTo| - 1;
      AcksExactly(net, first, sentTo[..n]);
      LastPosition(net, first, sentTo);
      assert Acks(net, first, sentTo)
          == Acks(net, first, sentTo[..n]) + if AckAt(net, first, sentTo, n) then 1 else 0;
      hide AckAt, Acks;
    }
  }

  /** A positive count means that some node has acknowledged, and the other way round. */
  lemma StoredMeansAcked(net: Transport, step: KeyStore)
    ensures Stored(net, step) > 0
       <==> exists k | 0 <= k < |step.sentTo| :: Acked(net, step, step.sentTo[k].addr)
  {
    var first := step.first + |step.asked|;
    CountedMeansAcked(net, first, step.sentTo);
    hide Acks, AckAt;
    if k :| 0 <= k < |step.sentTo| && AckAt(net, first, step.sentTo, k) {
      assert Acked(net, step, step.sentTo[k].addr);
    }
  }

  /** Who has acknowledged the descriptor sends it, whenever asked. */
  ghost predicate Honest(net: Transport, step: KeyStore, later: Transport, d: Descriptor) {
    forall number: nat, addr | Acked(net, step, addr) :: d in DescriptorsIn(later(number, addr))
  }

  /**
   From store to lookup: when an honest holder is in a table of at most K nodes, the lookup
   is not empty; and it has the descriptor if no one sends others without it.
   */
  lemma AcknowledgedIsFound(
    net: Transport, step: KeyStore, later: Transport, d: Descriptor, holder: NodeInfo,
    rounds: seq<Round>, all: seq<NodeInfo>, collected: seq<Descriptor>, broadcast: nat)
    requires LookupAnswer(later, rounds, all, collected, broadcast) && |all| <= K
    requires holder in all && Acked(net, step, holder.addr) && Honest(net, step, later, d)
    ensures collected != []
    ensures (forall number: nat, addr ::
               DescriptorsIn(later(number, addr)) != [] ==> d in DescriptorsIn(later(number, addr)))
            ==> d in collected
  {
    hide DescriptorsFrom, DescriptorsIn, AllAsked, Acked, StoppedAtFirst;
    var found, first := DescriptorsFrom(later, 0, AllAsked(rounds)), |AllAsked(rounds)|;
    if found == [] {
      LookupFindsExactly(later, rounds, all, collected, broadcast);
      var i :| 0 <= i < |all| && all[i] == holder;
      assert d in DescriptorsIn(later(first + i, all[i].addr));
      BroadcastIsPrefix(later, first, all, collected, broadcast);
    }
    if forall number: nat, addr ::
      DescriptorsIn(later(number, addr)) != [] ==> d in DescriptorsIn(later(number, addr))
    {
      if found != [] {
        CollectedHolds(later, 0, AllAsked(rounds), d);
      } else {
        CollectedHolds(later, first, all[..broadcast], d);
      }
    }
  }

  lemma BroadcastIsPrefix(net: Transport, first: nat, all: seq<NodeInfo>, collected: seq<Descriptor>, asked: nat)
    requires StoppedAtFirst(net, first, all, collected, asked)
    ensures asked <= |all| && collected == DescriptorsFrom(net, first, all[..asked])
  {
  }
}

/**
 The Kademlia routing table: 256 buckets of at most K nodes, the least recently touched
 first, and the ping challenge for a full bucket. Touch times are a history variable:
 the code keeps only the order.
 */
module KBuckets {
  import opened Prelude
  import opened Descriptors
  import opened XorMetric
  import Distance
  import opened NodeSort

  const K: nat := 20
  const NUM_BUCKETS: nat := 256

  datatype AddNodeResult =
    | Added
    | Updated
    | BucketFull(lrs: NodeInfo, candidate: NodeInfo)

  datatype Table = Table(buckets: seq<seq<NodeInfo>>, touch: map<Identity, nat>, clock: nat)

  /** The bucket of a node id, by its distance to the local id; the local id has none. */
  function BucketFor(local: Id, id: Id): (index: Option<nat>)
    ensures index.None? <==> local == id
    ensures index.Some? ==> index.value < NUM_BUCKETS && index.value + 1 == BitLength(Xor(local, id))
  {
    XorZeroIffEqual(local, id);
    XorBounded(local, id, NUM_BUCKETS);
    BitLengthBounded(Xor(local, id), NUM_BUCKETS);
    Distance.TopBit(Xor(local, id))
  }

  /** `position` of an identity among the entries. */
  function Position(entries: seq<NodeInfo>, who: Identity): (pos: Option<nat>)
    ensures pos.Some? ==> pos.value < |entries| && entries[pos.value].identity == who
    ensures pos.None? ==> forall e <- entries :: e.identity != who
  {
    if entries == [] then None
    else if entries[0].identity == who then Some(0)
    else match Position(entries[1..], who)
      case None => None
      case Some(pos) => Some(pos + 1)
  }

  function PositionOfId(ids: NodeIds, entries: seq<NodeInfo>, id: Id): (pos: Option<nat>)
    ensures pos.Some? ==> pos.value < |entries| && IdOfNode(ids, entries[pos.value]) == id
    ensures pos.None? ==> forall e <- entries :: IdOfNode(ids, e) != id
  {
    if entries == [] then None
    else if IdOfNode(ids, entries[0]) == id then Some(0)
    else match PositionOfId(ids, entries[1..], id)
      case None => None
      case Some(pos) => Some(pos + 1)
  }

  function RemoveAt(entries: seq<NodeInfo>, pos: nat): seq<NodeInfo>
    requires pos < |entries|
  {
    entries[..pos] + entries[pos + 1..]
  }

  /** `retain` of the entries with another id. */
  function OtherIds(ids: NodeIds, entries: seq<NodeInfo>, id: Id): (kept: seq<NodeInfo>)
    ensures |kept| <= |entries|
    ensures forall e :: e in kept <==> e in entries && IdOfNode(ids, e) != id
  {
    if entries == [] then []
    else (if IdOfNode(ids, entries[0]) != id then [entries[0]] else []) + OtherIds(ids, entries[1..], id)
  }

  // ----- the operations

  /** `who` was heard from just now. */
  function Touch(t: Table, i: nat, entries: seq<NodeInfo>, who: Identity): Table
    requires i < |t.buckets|
  {
    Table(t.buckets[i := entries], t.touch[who := t.clock], t.clock + 1)
  }

  function Add(ids: NodeIds, local: Id, t: Table, node: NodeInfo): (Table, AddNodeResult)
    requires |t.buckets| == NUM_BUCKETS
  {
    match BucketFor(local, IdOfNode(ids, node))
    case None => (t, Added)
    case Some(i) =>
      var entries := t.buckets[i];
      match Position(entries, node.identity)
      case Some(pos) => (Touch(t, i, RemoveAt(entries, pos) + [node], node.identity), Updated)
      case None =>
        if |entries| < K then (Touch(t, i, entries + [node], node.identity), Added)
        else (t, BucketFull(entries[0], node))
  }

  function Resolve(ids: NodeIds, local: Id, t: Table, lrsId: Id, candidate: NodeInfo, responded: bool): Table
    requires |t.buckets| == NUM_BUCKETS
  {
    match BucketFor(local, IdOfNode(ids, candidate))
    case None => t
    case Some(i) =>
      var entries := t.buckets[i];
      if responded then
        match PositionOfId(ids, entries, lrsId)
        case Some(pos) => Touch(t, i, RemoveAt(entries, pos) + [entries[pos]], entries[pos].identity)
        case None => t
      else
        var kept := OtherIds(ids, entries, lrsId);
        if |kept| < K then Touch(t, i, kept + [candidate], candidate.identity)
        else t.(buckets := t.buckets[i := kept])
  }

  function Remove(ids: NodeIds, local: Id, t: Table, id: Id): Table
    requires |t.buckets| == NUM_BUCKETS
  {
    match BucketFor(local, id)
    case None => t
    case Some(i) => t.(buckets := t.buckets[i := OtherIds(ids, t.buckets[i], id)])
  }

  // ----- the invariant

  /** Strictly ascending touch times: the order of the entries is the order of last contact. */
  ghost predicate TouchOrdered(entries: seq<NodeInfo>, touch: map<Identity, nat>, clock: nat) {
    && (forall e <- entries :: e.identity in touch && touch[e.identity] < clock)
    && (forall a, b | 0 <= a < b < |entries| :: touch[entries[a].identity] < touch[entries[b].identity])
  }

  ghost predicate InBucket(ids: NodeIds, local: Id, entries: seq<NodeInfo>, i: nat) {
    forall e <- entries :: BucketFor(local, IdOfNode(ids, e)) == Some(i)
  }

  ghost predicate BucketOk(ids: NodeIds, local: Id, t: Table, i: nat)
    requires i < |t.buckets|
  {
    |t.buckets[i]| <= K && InBucket(ids, local, t.buckets[i], i) && TouchOrdered(t.buckets[i], t.touch, t.clock)
  }

  ghost predicate Inv(ids: NodeIds, local: Id, t: Table) {
    |t.buckets| == NUM_BUCKETS && forall i | 0 <= i < NUM_BUCKETS :: BucketOk(ids, local, t, i)
  }

  /** Identities are unique in a bucket, and no node of the table is the local one. */
  lemma InvMeansUnique(ids: NodeIds, local: Id, t: Table, i: nat, a: nat, b: nat)
    requires Inv(ids, local, t) && i < NUM_BUCKETS && a < |t.buckets[i]| && b < |t.buckets[i]|
    ensures t.buckets[i][a].identity == t.buckets[i][b].identity <==> a == b
    ensures IdOfNode(ids, t.buckets[i][a]) != local
  {
    assert BucketOk(ids, local, t, i);
    assert t.buckets[i][a] in t.buckets[i];
    if a < b || b < a {
      hide InBucket, BucketFor;
    }
  }

  /** Replacing one bucket and touching an identity that belongs to it leaves the others alone. */
  lemma TouchKeepsInv(ids: NodeIds, local: Id, t: Table, i: nat, entries: seq<NodeInfo>, node: NodeInfo)
    requires Inv(ids, local, t) && i < NUM_BUCKETS
    requires BucketFor(local, IdOfNode(ids, node)) == Some(i)
    requires |entries| < K && TouchOrdered(entries, t.touch, t.clock) && InBucket(ids, local, entries, i)
    requires forall e <- entries :: e.identity != node.identity
    ensures Inv(ids, local, Touch(t, i, entries + [node], node.identity))
  {
    hide BucketFor;
    var t' := Touch(t, i, entries + [node], node.identity);
    forall j | 0 <= j < NUM_BUCKETS ensures BucketOk(ids, local, t', j) {
      assert BucketOk(ids, local, t, j);
      if j != i {
        OtherBucketUntouched(ids, local, t, i, j, node);
      }
    }
  }

  lemma OtherBucketUntouched(ids: NodeIds, local: Id, t: Table, i: nat, j: nat, node: NodeInfo)
    requires j < |t.buckets| && BucketOk(ids, local, t, j) && i != j
    requires BucketFor(local, IdOfNode(ids, node)) == Some(i)
    ensures forall e <- t.buckets[j] :: e.identity != node.identity
  {
    hide BucketFor, TouchOrdered;
    forall e <- t.buckets[j] ensures e.identity != node.identity {
      assert BucketFor(local, IdOfNode(ids, e)) == Some(j);
    }
  }

  lemma ShrinkKeepsInv(ids: NodeIds, local: Id, t: Table, i: nat, entries: seq<NodeInfo>)
    requires Inv(ids, local, t) && i < NUM_BUCKETS && |entries| <= K
    requires TouchOrdered(entries, t.touch, t.clock) && InBucket(ids, local, entries, i)
    ensures Inv(ids, local, t.(buckets := t.buckets[i := entries]))
  {
    hide BucketFor, TouchOrdered, InBucket;
    var t' := t.(buckets := t.buckets[i := entries]);
    forall j | 0 <= j < NUM_BUCKETS ensures BucketOk(ids, local, t', j) {
      assert BucketOk(ids, local, t, j);
    }
  }

  lemma RemoveAtOrdered(entries: seq<NodeInfo>, pos: nat, touch: map<Identity, nat>, clock: nat)
    requires pos < |entries| && TouchOrdered(entries, touch, clock)
    ensures TouchOrdered(RemoveAt(entries, pos), touch, clock)
    ensures forall e <- RemoveAt(entries, pos) :: e in entries && e.identity != entries[pos].identity
  {
    var r := RemoveAt(entries, pos);
    forall k | 0 <= k < |r| ensures r[k] == entries[if k < pos then k else k + 1] {
    }
  }

  lemma {:induction false} OtherIdsOrdered(
    ids: NodeIds, entries: seq<NodeInfo>, id: Id, touch: map<Identity, nat>, clock: nat)
    requires TouchOrdered(entries, touch, clock)
    ensures TouchOrdered(OtherIds(ids, entries, id), touch, clock)
  {
    hide IdOfNode;
    if entries != [] {
      OtherIdsOrdered(ids, entries[1..], id, touch, clock);
      var rest := OtherIds(ids, entries[1..], id);
      forall e <- rest ensures touch[entries[0].identity] < touch[e.identity] {
        assert e in entries[1..];
      }
    }
  }

  lemma AddKeepsInv(ids: NodeIds, local: Id, t: Table, node: NodeInfo)
    requires Inv(ids, local, t)
    ensures Inv(ids, local, Add(ids, local, t, node).0)
  {
    hide BucketFor, IdOfNode, Position, RemoveAt, Touch, TouchOrdered;
    match BucketFor(local, IdOfNode(ids, node))
    case None =>
    case Some(i) =>
      var entries := t.buckets[i];
      assert BucketOk(ids, local, t, i);
      match Position(entries, node.identity) {
        case Some(pos) =>
          RemoveAtOrdered(entries, pos, t.touch, t.clock);
          RemoveAtLength(entries, pos);
          TouchKeepsInv(ids, local, t, i, RemoveAt(entries, pos), node);
        case None =>
          if |entries| < K {
            TouchKeepsInv(ids, local, t, i, entries, node);
          }
      }
  }

  lemma RemoveAtLength(entries: seq<NodeInfo>, pos: nat)
    requires pos < |entries|
    ensures |RemoveAt(entries, pos)| == |entries| - 1
    ensures forall e <- entries :: e == entries[pos] || e in RemoveAt(entries, pos)
  {
    forall e <- entries ensures e == entries[pos] || e in RemoveAt(entries, pos) {
      var k :| 0 <= k < |entries| && entries[k] == e;
      if k < pos {
        assert RemoveAt(entries, pos)[k] == e;
      } else if k > pos {
        assert RemoveAt(entries, pos)[k - 1] == e;
      }
    }
  }

  lemma RemoveKeepsInv(ids: NodeIds, local: Id, t: Table, id: Id)
    requires Inv(ids, local, t)
    ensures Inv(ids, local, Remove(ids, local, t, id))
  {
    hide IdOfNode, BucketFor, TouchOrdered;
    match BucketFor(local, id)
    case None =>
    case Some(i) =>
      assert BucketOk(ids, local, t, i);
      OtherIdsOrdered(ids, t.buckets[i], id, t.touch, t.clock);
      ShrinkKeepsInv(ids, local, t, i, OtherIds(ids, t.buckets[i], id));
  }

  /** The candidate of a challenge is not in its bucket once the challenged node is gone. */
  ghost predicate CandidateIsNew(ids: NodeIds, local: Id, t: Table, lrsId: Id, candidate: NodeInfo)
    requires |t.buckets| == NUM_BUCKETS
  {
    match BucketFor(local, IdOfNode(ids, candidate))
    case None => true
    case Some(i) =>
      var kept := OtherIds(ids, t.buckets[i], lrsId);
      |kept| >= K || forall e <- kept :: e.identity != candidate.identity
  }

  /** Resolving a challenge keeps the invariant exactly when it does not add a node a second time. */
  lemma ResolveKeepsInvExactly(
    ids: NodeIds, local: Id, t: Table, lrsId: Id, candidate: NodeInfo, responded: bool)
    requires Inv(ids, local, t)
    ensures Inv(ids, local, Resolve(ids, local, t, lrsId, candidate, responded))
       <==> responded || CandidateIsNew(ids, local, t, lrsId, candidate)
  {
    match BucketFor(local, IdOfNode(ids, candidate))
    case None =>
    case Some(i) =>
      if responded {
        RespondedKeepsInv(ids, local, t, i, lrsId, candidate);
      } else {
        DeadKeepsInvExactly(ids, local, t, i, lrsId, candidate);
      }
  }

  lemma RespondedKeepsInv(ids: NodeIds, local: Id, t: Table, i: nat, lrsId: Id, candidate: NodeInfo)
    requires Inv(ids, local, t) && BucketFor(local, IdOfNode(ids, candidate)) == Some(i)
    ensures Inv(ids, local, Resolve(ids, local, t, lrsId, candidate, true))
  {
    hide BucketFor, IdOfNode, PositionOfId, RemoveAt, Touch, TouchOrdered;
    assert BucketOk(ids, local, t, i);
    var entries := t.buckets[i];
    match PositionOfId(ids, entries, lrsId)
    case None =>
    case Some(pos) =>
      RemoveAtOrdered(entries, pos, t.touch, t.clock);
      RemoveAtLength(entries, pos);
      assert entries[pos] in entries;
      TouchKeepsInv(ids, local, t, i, RemoveAt(entries, pos), entries[pos]);
  }

  lemma DeadKeepsInvExactly(ids: NodeIds, local: Id, t: Table, i: nat, lrsId: Id, candidate: NodeInfo)
    requires Inv(ids, local, t) && BucketFor(local, IdOfNode(ids, candidate)) == Some(i)
    ensures Inv(ids, local, Resolve(ids, local, t, lrsId, candidate, false))
       <==> CandidateIsNew(ids, local, t, lrsId, candidate)
  {
    hide BucketFor, IdOfNode, TouchOrdered;
    assert BucketOk(ids, local, t, i);
    var kept := OtherIds(ids, t.buckets[i], lrsId);
    OtherIdsOrdered(ids, t.buckets[i], lrsId, t.touch, t.clock);
    if |kept| >= K {
      ShrinkKeepsInv(ids, local, t, i, kept);
    } else if forall e <- kept :: e.identity != candidate.identity {
      TouchKeepsInv(ids, local, t, i, kept, candidate);
    } else {
      var k :| 0 <= k < |kept| && kept[k].identity == candidate.identity;
      var t' := Resolve(ids, local, t, lrsId, candidate, false);
      if Inv(ids, local, t') {
        InvMeansUnique(ids, local, t', i, k, |kept|);
      }
    }
  }

  // ----- runs

  /** Adding a node; removing an id; adding with the ping challenge carried through. */
  datatype Op = AddOp(node: NodeInfo) | RemoveOp(id: Id) | ChallengeOp(candidate: NodeInfo, responded: bool)

  function AfterOp(ids: NodeIds, local: Id, t: Table, op: Op): Table
    requires |t.buckets| == NUM_BUCKETS
  {
    match op
    case AddOp(node) => Add(ids, local, t, node).0
    case RemoveOp(id) => Remove(ids, local, t, id)
    case ChallengeOp(node, responded) =>
      var (added, result) := Add(ids, local, t, node);
      if result.BucketFull? then
        Resolve(ids, local, added, IdOfNode(ids, result.lrs), result.candidate, responded)
      else added
  }

  function RunOps(ids: NodeIds, local: Id, t: Table, ops: seq<Op>): (r: Table)
    requires |t.buckets| == NUM_BUCKETS
    ensures |r.buckets| == NUM_BUCKETS
    decreases |ops|
  {
    if ops == [] then t else RunOps(ids, local, AfterOp(ids, local, t, ops[0]), ops[1..])
  }

  const EMPTY_TABLE: Table := Table(seq(NUM_BUCKETS, _ => []), map[], 0)

  lemma ChallengeKeepsInv(ids: NodeIds, local: Id, t: Table, node: NodeInfo, responded: bool)
    requires Inv(ids, local, t)
    ensures Inv(ids, local, AfterOp(ids, local, t, ChallengeOp(node, responded)))
  {
    AddKeepsInv(ids, local, t, node);
    var (added, result) := Add(ids, local, t, node);
    if result.BucketFull? {
      ResolveKeepsInvExactly(ids, local, t, IdOfNode(ids, result.lrs), node, responded);
      hide BucketFor, Inv, IdOfNode, Resolve;
    }
  }

  /** Over every run each bucket keeps its shape. */
  lemma {:induction false} RunKeepsInv(ids: NodeIds, local: Id, t: Table, ops: seq<Op>)
    requires Inv(ids, local, t)
    ensures Inv(ids, local, RunOps(ids, local, t, ops))
    decreases |ops|
  {
    if ops != [] {
      var op := ops[0];
      match op {
        case AddOp(node) => AddKeepsInv(ids, local, t, node);
        case RemoveOp(id) => RemoveKeepsInv(ids, local, t, id);
        case ChallengeOp(node, responded) => ChallengeKeepsInv(ids, local, t, node, responded);
      }
      hide Add, Remove, Resolve, BucketOk;
      RunKeepsInv(ids, local, AfterOp(ids, local, t, op), ops[1..]);
    }
  }

  lemma EmptyTableOk(ids: NodeIds, local: Id)
    ensures Inv(ids, local, EMPTY_TABLE)
  {
  }

  /** Over every run from the empty table each bucket has its shape. */
  lemma EveryRunKeepsInv(ids: NodeIds, local: Id, ops: seq<Op>)
    ensures Inv(ids, local, RunOps(ids, local, EMPTY_TABLE, ops))
  {
    EmptyTableOk(ids, local);
    hide Inv, RunOps;
    RunKeepsInv(ids, local, EMPTY_TABLE, ops);
  }

  ghost predicate TouchedBefore(t: Table, a: NodeInfo, b: NodeInfo) {
    a.identity in t.touch && b.identity in t.touch && t.touch[a.identity] < t.touch[b.identity]
  }

  /** The node that a full bucket offers for the challenge is its least recently touched one. */
  lemma LrsIsLeastRecent(ids: NodeIds, local: Id, t: Table, node: NodeInfo)
    requires Inv(ids, local, t) && Add(ids, local, t, node).1.BucketFull?
    ensures var lrs := Add(ids, local, t, node).1.lrs;
            var i := BucketFor(local, IdOfNode(ids, node)).value;
            && lrs in t.buckets[i] && |t.buckets[i]| == K
            && forall e <- t.buckets[i] :: e == lrs || TouchedBefore(t, lrs, e)
  {
    hide BucketFor, IdOfNode, Position;
    var i := BucketFor(local, IdOfNode(ids, node)).value;
    assert BucketOk(ids, local, t, i);
  }

  // ----- who is in the table

  ghost predicate Listed(entries: seq<NodeInfo>, who: Identity) {
    exists e <- entries :: e.identity == who
  }

  ghost predicate Member(t: Table, who: Identity) {
    exists i | 0 <= i < |t.buckets| :: Listed(t.buckets[i], who)
  }

  /** A member is in the bucket of its own distance. */
  lemma MemberInBucket(ids: NodeIds, local: Id, t: Table, who: Identity)
    requires Inv(ids, local, t)
    ensures var index := BucketFor(local, ids(who.publicKey));
            Member(t, who) <==> index.Some? && Listed(t.buckets[index.value], who)
  {
    hide BucketFor, TouchOrdered;
    if i :| 0 <= i < |t.buckets| && Listed(t.buckets[i], who) {
      assert BucketOk(ids, local, t, i);
      var e :| e in t.buckets[i] && e.identity == who;
      assert BucketFor(local, IdOfNode(ids, e)) == Some(i);
    }
  }

  lemma ListedAfterMove(entries: seq<NodeInfo>, pos: nat, node: NodeInfo, who: Identity)
    requires pos < |entries| && entries[pos].identity == node.identity
    ensures Listed(RemoveAt(entries, pos) + [node], who) <==> Listed(entries, who)
  {
    RemoveAtLength(entries, pos);
    var moved := RemoveAt(entries, pos) + [node];
    assert node in moved;
    if who != node.identity && Listed(entries, who) {
      var e :| e in entries && e.identity == who;
      assert e in moved;
    }
  }

  lemma ListedAppend(entries: seq<NodeInfo>, node: NodeInfo, who: Identity)
    ensures Listed(entries + [node], who) <==> Listed(entries, who) || who == node.identity
  {
    assert node in entries + [node];
    forall e <- entries ensures e in entries + [node] {
    }
  }

  /** Adding a node drops no one: it makes the node a member unless its bucket is full, and no one else. */
  lemma AddMembersExactly(ids: NodeIds, local: Id, t: Table, node: NodeInfo, who: Identity)
    requires Inv(ids, local, t)
    ensures var (after, result) := Add(ids, local, t, node);
            Member(after, who) <==>
              Member(t, who)
              || (who == node.identity && IdOfNode(ids, node) != local && !result.BucketFull?)
  {
    AddKeepsInv(ids, local, t, node);
    MemberInBucket(ids, local, t, who);
    MemberInBucket(ids, local, Add(ids, local, t, node).0, who);
    hide Inv, Member, Listed, Position, RemoveAt;
    match BucketFor(local, IdOfNode(ids, node))
    case None =>
    case Some(i) =>
      var entries := t.buckets[i];
      match Position(entries, node.identity) {
        case Some(pos) =>
          ListedAfterMove(entries, pos, node, who);
          ListedAppend(RemoveAt(entries, pos), node, who);
        case None =>
          ListedAppend(entries, node, who);
      }
  }

  /** What `add_node` answers: updated if the node was there, and if not, full if its bucket has K entries. */
  lemma AddResultExactly(ids: NodeIds, local: Id, t: Table, node: NodeInfo)
    requires Inv(ids, local, t)
    ensures var index, result := BucketFor(local, IdOfNode(ids, node)), Add(ids, local, t, node).1;
            && (result == Updated <==> Member(t, node.identity))
            && (result.BucketFull? <==>
                  index.Some? && !Member(t, node.identity) && |t.buckets[index.value]| == K)
            && (result.BucketFull? ==> result.candidate == node)
  {
    MemberInBucket(ids, local, t, node.identity);
    match BucketFor(local, IdOfNode(ids, node))
    case None =>
    case Some(i) =>
      assert BucketOk(ids, local, t, i);
      hide BucketFor, Inv, Member, TouchOrdered, InBucket, Touch, RemoveAt;
      match Position(t.buckets[i], node.identity) {
        case Some(pos) => assert t.buckets[i][pos] in t.buckets[i];
        case None =>
      }
  }

  /** Only the bucket of the node changes, and in it only the node's own entry. */
  lemma AddEntriesExactly(ids: NodeIds, local: Id, t: Table, node: NodeInfo, j: nat, e: NodeInfo)
    requires Inv(ids, local, t) && j < NUM_BUCKETS
    ensures var (after, result) := Add(ids, local, t, node);
            e in after.buckets[j] <==>
              if BucketFor(local, IdOfNode(ids, node)) == Some(j) && !result.BucketFull? then
                e == node || (e in t.buckets[j] && e.identity != node.identity)
              else e in t.buckets[j]
  {
    match BucketFor(local, IdOfNode(ids, node))
    case None =>
    case Some(i) =>
      assert BucketOk(ids, local, t, i);
      hide BucketFor, Inv, InBucket;
      match Position(t.buckets[i], node.identity) {
        case Some(pos) =>
          RemoveAtOrdered(t.buckets[i], pos, t.touch, t.clock);
          RemoveAtLength(t.buckets[i], pos);
        case None =>
      }
      hide RemoveAt, TouchOrdered;
  }

  /** A node that was added or updated is the most recent entry of its bucket, with its new address. */
  lemma AddedIsMostRecent(ids: NodeIds, local: Id, t: Table, node: NodeInfo)
    requires Inv(ids, local, t) && IdOfNode(ids, node) != local
    ensures var (after, result) := Add(ids, local, t, node);
            var bucket := after.buckets[BucketFor(local, IdOfNode(ids, node)).value];
            !result.BucketFull? ==>
              bucket != [] && bucket[|bucket| - 1] == node
              && forall e <- bucket :: e == node || TouchedBefore(after, e, node)
  {
    AddKeepsInv(ids, local, t, node);
    var after := Add(ids, local, t, node).0;
    var i := BucketFor(local, IdOfNode(ids, node)).value;
    hide BucketFor, Position, RemoveAt;
    assert BucketOk(ids, local, after, i);
  }

  /** Removing an id removes exactly the members with that id. */
  lemma RemoveMembersExactly(ids: NodeIds, local: Id, t: Table, id: Id, who: Identity)
    requires Inv(ids, local, t)
    ensures Member(Remove(ids, local, t, id), who) <==> Member(t, who) && ids(who.publicKey) != id
  {
    RemoveKeepsInv(ids, local, t, id);
    MemberInBucket(ids, local, t, who);
    MemberInBucket(ids, local, Remove(ids, local, t, id), who);
    hide Inv, Member;
  }

  lemma ListedOthers(ids: NodeIds, entries: seq<NodeInfo>, id: Id, who: Identity)
    ensures Listed(OtherIds(ids, entries, id), who) <==> Listed(entries, who) && ids(who.publicKey) != id
  {
  }

  lemma OneIsDropped(ids: NodeIds, entries: seq<NodeInfo>)
    requires entries != []
    ensures |OtherIds(ids, entries, IdOfNode(ids, entries[0]))| < |entries|
  {
  }

  /**
   A challenge carried through: a node that answered keeps its place as the most recent one
   and the candidate stays out; one that did not is replaced by the candidate.
   */
  lemma ChallengeExactly(ids: NodeIds, local: Id, t: Table, node: NodeInfo, responded: bool, who: Identity)
    requires Inv(ids, local, t) && Add(ids, local, t, node).1.BucketFull?
    ensures var lrsId := IdOfNode(ids, Add(ids, local, t, node).1.lrs);
            var after := AfterOp(ids, local, t, ChallengeOp(node, responded));
            Member(after, who) <==>
              if responded then Member(t, who)
              else (Member(t, who) && ids(who.publicKey) != lrsId) || who == node.identity
  {
    ChallengeKeepsInv(ids, local, t, node, responded);
    var after := AfterOp(ids, local, t, ChallengeOp(node, responded));
    MemberInBucket(ids, local, t, who);
    MemberInBucket(ids, local, after, who);
    var i := BucketFor(local, IdOfNode(ids, node)).value;
    var entries := t.buckets[i];
    var lrsId := IdOfNode(ids, entries[0]);
    assert BucketOk(ids, local, t, i);
    hide Inv, Member, Listed, RemoveAt, BucketFor;
    if responded {
      var pos := PositionOfId(ids, entries, lrsId).value;
      ListedAfterMove(entries, pos, entries[pos], who);
    } else {
      OneIsDropped(ids, entries);
      ListedOthers(ids, entries, lrsId, who);
      ListedAppend(OtherIds(ids, entries, lrsId), node, who);
    }
  }

  lemma {:induction false} DroppedExactly(ids: NodeIds, entries: seq<NodeInfo>, id: Id)
    ensures |OtherIds(ids, entries, id)| < |entries| <==> exists e <- entries :: IdOfNode(ids, e) == id
  {
    hide IdOfNode;
    if entries != [] {
      DroppedExactly(ids, entries[1..], id);
      assert entries == [entries[0]] + entries[1..];
    }
  }

  /** There is room for the candidate once the challenged node is gone. */
  ghost predicate Room(ids: NodeIds, entries: seq<NodeInfo>, lrsId: Id) {
    |entries| < K || exists e <- entries :: IdOfNode(ids, e) == lrsId
  }

  /**
   Resolving with any node: one that answered changes no membership; one that did not leaves
   the bucket of the candidate, and the candidate joins it if there is room then.
   */
  lemma ResolveMembersExactly(
    ids: NodeIds, local: Id, t: Table, lrsId: Id, candidate: NodeInfo, responded: bool, who: Identity)
    requires Inv(ids, local, t) && (responded || CandidateIsNew(ids, local, t, lrsId, candidate))
    ensures var index := BucketFor(local, IdOfNode(ids, candidate));
            Member(Resolve(ids, local, t, lrsId, candidate, responded), who) <==>
              if responded || index.None? then Member(t, who)
              else
                || (Member(t, who) && !(ids(who.publicKey) == lrsId && BucketFor(local, lrsId) == index))
                || (who == candidate.identity && Room(ids, t.buckets[index.value], lrsId))
  {
    var after := Resolve(ids, local, t, lrsId, candidate, responded);
    ResolveKeepsInvExactly(ids, local, t, lrsId, candidate, responded);
    MemberInBucket(ids, local, t, who);
    MemberInBucket(ids, local, after, who);
    hide Inv, Member, Listed, RemoveAt, BucketFor, BucketOk, Touch;
    match BucketFor(local, IdOfNode(ids, candidate))
    case None =>
    case Some(i) =>
      var entries := t.buckets[i];
      InvAt(ids, local, t, i);
      if responded {
        hide OtherIds;
        match PositionOfId(ids, entries, lrsId) {
          case Some(pos) => ListedAfterMove(entries, pos, entries[pos], who);
          case None =>
        }
      } else {
        hide PositionOfId;
        DroppedExactly(ids, entries, lrsId);
        ListedOthers(ids, entries, lrsId, who);
        ListedAppend(OtherIds(ids, entries, lrsId), candidate, who);
      }
  }

  lemma InvAt(ids: NodeIds, local: Id, t: Table, i: nat)
    requires Inv(ids, local, t) && i < NUM_BUCKETS
    ensures BucketOk(ids, local, t, i) && |t.buckets[i]| <= K
  {
    hide BucketFor, TouchOrdered, InBucket;
  }

  /** A node that answered the challenge becomes the most recent one of its bucket. */
  lemma AnsweredIsMostRecent(ids: NodeIds, local: Id, t: Table, node: NodeInfo)
    requires Inv(ids, local, t) && Add(ids, local, t, node).1.BucketFull?
    ensures var entries := t.buckets[BucketFor(local, IdOfNode(ids, node)).value];
            AfterOp(ids, local, t, ChallengeOp(node, true)).buckets
              == t.buckets[BucketFor(local, IdOfNode(ids, node)).value := entries[1..] + [entries[0]]]
  {
    hide BucketFor;
    var entries := t.buckets[BucketFor(local, IdOfNode(ids, node)).value];
    assert PositionOfId(ids, entries, IdOfNode(ids, entries[0])) == Some(0);
    assert RemoveAt(entries, 0) == entries[1..];
  }

  // ----- many additions, results ignored

  function AddAll(ids: NodeIds, local: Id, t: Table, nodes: seq<NodeInfo>): (r: Table)
    requires |t.buckets| == NUM_BUCKETS
    ensures |r.buckets| == NUM_BUCKETS
  {
    if nodes == [] then t
    else Add(ids, local, AddAll(ids, local, t, nodes[..|nodes| - 1]), nodes[|nodes| - 1]).0
  }

  lemma AddAllNext(ids: NodeIds, local: Id, t: Table, nodes: seq<NodeInfo>, node: NodeInfo)
    requires |t.buckets| == NUM_BUCKETS
    ensures AddAll(ids, local, t, nodes + [node]) == Add(ids, local, AddAll(ids, local, t, nodes), node).0
  {
    hide Add;
    assert (nodes + [node])[..|nodes|] == nodes;
  }

  lemma {:induction false} AddAllConcat(ids: NodeIds, local: Id, t: Table, a: seq<NodeInfo>, b: seq<NodeInfo>)
    requires |t.buckets| == NUM_BUCKETS
    ensures AddAll(ids, local, t, a + b) == AddAll(ids, local, AddAll(ids, local, t, a), b)
  {
    hide Add, AddAll;
    AddAllNone(ids, local, AddAll(ids, local, t, a));
    if b == [] {
      assert a + b == a;
    } else {
      var init, last := b[..|b| - 1], b[|b| - 1];
      AddAllConcat(ids, local, t, a, init);
      AddAllNext(ids, local, t, a + init, last);
      AddAllNext(ids, local, AddAll(ids, local, t, a), init, last);
      assert a + b == a + init + [last] && b == init + [last];
    }
  }

  lemma AddAllNone(ids: NodeIds, local: Id, t: Table)
    requires |t.buckets| == NUM_BUCKETS
    ensures AddAll(ids, local, t, []) == t
  {
  }

  lemma AddNeverShrinks(ids: NodeIds, local: Id, t: Table, node: NodeInfo, j: nat)
    requires Inv(ids, local, t) && j < NUM_BUCKETS
    ensures |t.buckets[j]| <= |Add(ids, local, t, node).0.buckets[j]| <= K
  {
    AddKeepsInv(ids, local, t, node);
    assert BucketOk(ids, local, Add(ids, local, t, node).0, j);
    hide Inv, BucketFor, TouchOrdered, InBucket, Position, RemoveAt;
    match BucketFor(local, IdOfNode(ids, node))
    case None =>
    case Some(i) =>
      match Position(t.buckets[i], node.identity) {
        case Some(pos) => RemoveAtLength(t.buckets[i], pos);
        case None =>
      }
  }

  ghost predicate Full(ids: NodeIds, local: Id, t: Table, node: NodeInfo)
    requires |t.buckets| == NUM_BUCKETS && IdOfNode(ids, node) != local
  {
    |t.buckets[BucketFor(local, IdOfNode(ids, node)).value]| == K
  }

  /** Many additions drop no one, and each node becomes a member unless its bucket is full then; no one else does. */
  lemma {:induction false} AddAllMembersExactly(ids: NodeIds, local: Id, t: Table, nodes: seq<NodeInfo>, who: Identity)
    requires Inv(ids, local, t)
    ensures var after := AddAll(ids, local, t, nodes);
            && Inv(ids, local, after)
            && (Member(t, who) ==> Member(after, who))
            && (Member(after, who) ==> Member(t, who) || exists n <- nodes :: n.identity == who)
            && (forall n <- nodes | IdOfNode(ids, n) != local ::
                  Member(after, n.identity) || Full(ids, local, after, n))
  {
    assert |t.buckets| == NUM_BUCKETS;
    hide Inv, BucketFor, Add, Member;
    if nodes != [] {
      var init, last := nodes[..|nodes| - 1], nodes[|nodes| - 1];
      assert nodes == init + [last];
      var before := AddAll(ids, local, t, init);
      AddAllMembersExactly(ids, local, t, init, who);
      AddKeepsInv(ids, local, before, last);
      AddMembersExactly(ids, local, before, last, who);
      var after := AddAll(ids, local, t, nodes);
      forall n <- nodes | IdOfNode(ids, n) != local
        ensures Member(after, n.identity) || Full(ids, local, after, n)
      {
        AddMembersExactly(ids, local, before, last, n.identity);
        AddNeverShrinks(ids, local, before, last, BucketFor(local, IdOfNode(ids, n)).value);
        AddResultExactly(ids, local, before, last);
        if n in init {
          assert Member(before, n.identity) || Full(ids, local, before, n);
        }
      }
    }
  }

  // ----- the table as the code keeps it

  function Flatten(buckets: seq<seq<NodeInfo>>): seq<NodeInfo> {
    if buckets == [] then [] else Flatten(buckets[..|buckets| - 1]) + buckets[|buckets| - 1]
  }

  class RoutingTable {
    const ids: NodeIds
    const localId: Id
    var buckets: seq<seq<NodeInfo>>
    ghost var touch: map<Identity, nat>
    ghost var clock: nat

    ghost predicate Valid()
      reads this
    {
      Inv(ids, localId, Abstract())
    }

    ghost function Abstract(): Table
      reads this
    {
      Table(buckets, touch, clock)
    }

    constructor (ids: NodeIds, localId: Id)
      ensures Valid() && this.ids == ids && this.localId == localId && Abstract() == EMPTY_TABLE
    {
      this.ids, this.localId := ids, localId;
      buckets, touch, clock := seq(NUM_BUCKETS, _ => []), map[], 0;
    }

    method AddNode(node: NodeInfo) returns (r: AddNodeResult)
      requires Valid()
      modifies this
      ensures Valid()
      ensures (Abstract(), r) == Add(ids, localId, old(Abstract()), node)
    {
      hide Inv, BucketFor, Position;
      AddKeepsInv(ids, localId, Abstract(), node);
      InvHasBuckets();
      var id := IdOfNode(ids, node);
      var index := BucketFor(localId, id);
      if index.None? {
        return Added;
      }
      var i := index.value;
      var entries := buckets[i];
      var pos := Position(entries, node.identity);
      if pos.Some? {
        entries := RemoveAt(entries, pos.value);
        entries := entries + [node];
        buckets := buckets[i := entries];
        touch, clock := touch[node.identity := clock], clock + 1;
        return Updated;
      }
      if |entries| < K {
        entries := entries + [node];
        buckets := buckets[i := entries];
        touch, clock := touch[node.identity := clock], clock + 1;
        return Added;
      }
      return BucketFull(entries[0], node);
    }

    lemma InvHasBuckets()
      requires Valid()
      ensures |buckets| == NUM_BUCKETS
    {
    }

    method ResolveChallenge(lrsId: Id, candidate: NodeInfo, responded: bool)
      requires Valid()
      modifies this
      ensures Valid() <==> responded || CandidateIsNew(ids, localId, old(Abstract()), lrsId, candidate)
      ensures Abstract() == Resolve(ids, localId, old(Abstract()), lrsId, candidate, responded)
    {
      hide Inv, BucketFor, PositionOfId, OtherIds, CandidateIsNew;
      ResolveKeepsInvExactly(ids, localId, Abstract(), lrsId, candidate, responded);
      InvHasBuckets();
      var index := BucketFor(localId, IdOfNode(ids, candidate));
      if index.None? {
        return;
      }
      var i := index.value;
      var entries := buckets[i];
      if responded {
        var pos := PositionOfId(ids, entries, lrsId);
        if pos.Some? {
          var lrs := entries[pos.value];
          buckets := buckets[i := RemoveAt(entries, pos.value) + [lrs]];
          touch, clock := touch[lrs.identity := clock], clock + 1;
        }
      } else {
        entries := OtherIds(ids, entries, lrsId);
        if |entries| < K {
          entries := entries + [candidate];
          touch, clock := touch[candidate.identity := clock], clock + 1;
        }
        buckets := buckets[i := entries];
      }
    }

    method RemoveNode(id: Id)
      requires Valid()
      modifies this
      ensures Valid()
      ensures Abstract() == Remove(ids, localId, old(Abstract()), id)
    {
      hide Inv, BucketFor, OtherIds;
      RemoveKeepsInv(ids, localId, Abstract(), id);
      InvHasBuckets();
      var index := BucketFor(localId, id);
      if index.None? {
        return;
      }
      buckets := buckets[index.value := OtherIds(ids, buckets[index.value], id)];
    }

    method AllNodes() returns (all: seq<NodeInfo>)
      ensures all == Flatten(buckets)
    {
      all := [];
      for i := 0 to |buckets|
        invariant all == Flatten(buckets[..i])
      {
        assert buckets[..i + 1][..i] == buckets[..i];
        all := all + buckets[i];
      }
      assert buckets[..|buckets|] == buckets;
    }

    method ClosestNodes(target: Id, count: nat) returns (closest: seq<NodeInfo>)
      ensures closest == Take(Sort(ids, target, Flatten(buckets)), count)
    {
      var all := AllNodes();
      closest := Take(Sort(ids, target, all), count);
    }
  }
}

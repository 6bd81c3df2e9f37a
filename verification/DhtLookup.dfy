/**
 The iterative lookup and the iterative store of a DHT node, against a transport that
 may answer each request in any way or not at all. A value request and its answer are
 numbered, so that the transport is an arbitrary function of the number and the address.
 */
module DhtLookup {
  import opened Prelude
  import opened Descriptors
  import opened XorMetric
  import Distance
  import opened NodeSort
  import opened KBuckets

  /** A response that was received and decoded; anything else counts as none. */
  datatype Reply =
    | FoundValue(descriptors: Option<seq<Descriptor>>, nodes: Option<seq<NodeInfo>>)
    | FoundNodes(found: seq<NodeInfo>)
    | StoreAck(stored: bool)

  type Transport = (nat, NodeAddr) -> Option<Reply>

  // ----- what a sequence of requests brings back

  function NodesIn(reply: Option<Reply>): seq<NodeInfo> {
    match reply
    case Some(FoundValue(_, Some(nodes))) => nodes
    case _ => []
  }

  function DescriptorsIn(reply: Option<Reply>): seq<Descriptor> {
    match reply
    case Some(FoundValue(Some(ds), _)) => ds
    case _ => []
  }

  /** The nodes named in the answers to requests numbered from `first`, request by request. */
  function NodesFrom(net: Transport, first: nat, asked: seq<NodeInfo>): seq<NodeInfo> {
    if asked == [] then []
    else
      var n := |asked| - 1;
      NodesFrom(net, first, asked[..n]) + NodesIn(net(first + n, asked[n].addr))
  }

  function DescriptorsFrom(net: Transport, first: nat, asked: seq<NodeInfo>): seq<Descriptor> {
    if asked == [] then []
    else
      var n := |asked| - 1;
      DescriptorsFrom(net, first, asked[..n]) + DescriptorsIn(net(first + n, asked[n].addr))
  }

  lemma AskNone(net: Transport, first: nat)
    ensures NodesFrom(net, first, []) == [] && DescriptorsFrom(net, first, []) == []
  {
  }

  lemma AskOneMore(net: Transport, first: nat, asked: seq<NodeInfo>, node: NodeInfo, number: nat)
    requires number == first + |asked|
    ensures var reply := net(number, node.addr);
            && NodesFrom(net, first, asked + [node]) == NodesFrom(net, first, asked) + NodesIn(reply)
            && DescriptorsFrom(net, first, asked + [node])
                 == DescriptorsFrom(net, first, asked) + DescriptorsIn(reply)
  {
    hide NodesIn, DescriptorsIn;
    assert (asked + [node])[..|asked|] == asked;
  }

  lemma NextAnswer(net: Transport, first: nat, asked: seq<NodeInfo>, j: nat)
    requires j < |asked|
    ensures var reply := net(first + j, asked[j].addr);
            && NodesFrom(net, first, asked[..j + 1]) == NodesFrom(net, first, asked[..j]) + NodesIn(reply)
            && DescriptorsFrom(net, first, asked[..j + 1])
                 == DescriptorsFrom(net, first, asked[..j]) + DescriptorsIn(reply)
  {
    hide NodesIn, DescriptorsIn;
    assert asked[..j + 1][..j] == asked[..j];
  }

  /** Asking some nodes and then others brings back what each group sends. */
  lemma {:induction false} AskedConcat(net: Transport, first: nat, a: seq<NodeInfo>, b: seq<NodeInfo>, second: nat)
    requires second == first + |a|
    ensures NodesFrom(net, first, a + b) == NodesFrom(net, first, a) + NodesFrom(net, second, b)
    ensures DescriptorsFrom(net, first, a + b) == DescriptorsFrom(net, first, a) + DescriptorsFrom(net, second, b)
  {
    hide NodesFrom, DescriptorsFrom, NodesIn, DescriptorsIn;
    if b == [] {
      assert a + b == a;
      AskNone(net, second);
    } else {
      var init, last := b[..|b| - 1], b[|b| - 1];
      var number := second + |init|;
      var reply := net(number, last.addr);
      AskedConcat(net, first, a, init, second);
      AskOneMore(net, first, a + init, last, number);
      AskOneMore(net, second, init, last, number);
      Reassociate(NodesFrom(net, first, a), NodesFrom(net, second, init), NodesIn(reply));
      Reassociate(DescriptorsFrom(net, first, a), DescriptorsFrom(net, second, init), DescriptorsIn(reply));
      assert a + b == a + init + [last] && b == init + [last];
    }
  }

  /** An empty result means that no answer held a descriptor, and the other way round. */
  lemma {:induction false} EmptyMeansNoneSent(net: Transport, first: nat, asked: seq<NodeInfo>)
    ensures DescriptorsFrom(net, first, asked) == []
       <==> forall i | 0 <= i < |asked| :: DescriptorsIn(net(first + i, asked[i].addr)) == []
  {
    hide DescriptorsIn;
    if asked != [] {
      EmptyMeansNoneSent(net, first, asked[..|asked| - 1]);
    }
  }

  /** A reply to FIND_VALUE that names the node. */
  predicate Names(reply: Option<Reply>, n: NodeInfo) {
    reply.Some? && reply.value.FoundValue? && reply.value.nodes.Some? && n in reply.value.nodes.value
  }

  predicate Sends(reply: Option<Reply>, d: Descriptor) {
    reply.Some? && reply.value.FoundValue? && reply.value.descriptors.Some? && d in reply.value.descriptors.value
  }

  /** One answer is collected as it is, in its order; anything but an answer to FIND_VALUE brings nothing. */
  lemma OneAnswer(net: Transport, first: nat, node: NodeInfo)
    ensures NodesFrom(net, first, [node]) ==
      match net(first, node.addr) { case Some(FoundValue(_, Some(nodes))) => nodes case _ => [] }
    ensures DescriptorsFrom(net, first, [node]) ==
      match net(first, node.addr) { case Some(FoundValue(Some(ds), _)) => ds case _ => [] }
  {
    AskNone(net, first);
    assert [node][..0] == [];
  }

  predicate NamesAt(net: Transport, first: nat, asked: seq<NodeInfo>, i: nat, n: NodeInfo)
    requires i < |asked|
  {
    Names(net(first + i, asked[i].addr), n)
  }

  predicate SendsAt(net: Transport, first: nat, asked: seq<NodeInfo>, i: nat, d: Descriptor)
    requires i < |asked|
  {
    Sends(net(first + i, asked[i].addr), d)
  }

  lemma TakenFromReply(reply: Option<Reply>)
    ensures forall n :: n in NodesIn(reply) <==> Names(reply, n)
    ensures forall d: Descriptor :: d in DescriptorsIn(reply) <==> Sends(reply, d)
  {
  }

  lemma LastNames(net: Transport, first: nat, asked: seq<NodeInfo>, n: NodeInfo)
    requires asked != []
    ensures n in NodesFrom(net, first, asked)
       <==> n in NodesFrom(net, first, asked[..|asked| - 1]) || NamesAt(net, first, asked, |asked| - 1, n)
  {
    hide NodesIn, Names;
    var last := |asked| - 1;
    var reply := net(first + last, asked[last].addr);
    TakenFromReply(reply);
    assert NodesFrom(net, first, asked) == NodesFrom(net, first, asked[..last]) + NodesIn(reply);
    hide NodesFrom;
  }

  lemma LastSends(net: Transport, first: nat, asked: seq<NodeInfo>, d: Descriptor)
    requires asked != []
    ensures d in DescriptorsFrom(net, first, asked)
       <==> d in DescriptorsFrom(net, first, asked[..|asked| - 1]) || SendsAt(net, first, asked, |asked| - 1, d)
  {
    hide DescriptorsIn, Sends, MachineSized, ContentOf;
    var last := |asked| - 1;
    var reply := net(first + last, asked[last].addr);
    TakenFromReply(reply);
    assert DescriptorsFrom(net, first, asked) == DescriptorsFrom(net, first, asked[..last]) + DescriptorsIn(reply);
    hide DescriptorsFrom;
  }

  lemma SendsAtPrefix(net: Transport, first: nat, all: seq<NodeInfo>, n: nat, k: nat, d: Descriptor)
    requires k < n <= |all|
    ensures SendsAt(net, first, all[..n], k, d) == SendsAt(net, first, all, k, d)
  {
  }

  lemma NamesAtPrefix(net: Transport, first: nat, all: seq<NodeInfo>, k: nat, i: nat, n: NodeInfo)
    requires i < k <= |all|
    ensures NamesAt(net, first, all[..k], i, n) == NamesAt(net, first, all, i, n)
  {
  }

  /** Every node of an answer is collected, and no other. */
  lemma {:induction false} NodesCollectedExactly(net: Transport, first: nat, asked: seq<NodeInfo>, n: NodeInfo)
    ensures n in NodesFrom(net, first, asked) <==> exists i | 0 <= i < |asked| :: NamesAt(net, first, asked, i, n)
  {
    if asked != [] {
      var last := |asked| - 1;
      var init := asked[..last];
      NodesCollectedExactly(net, first, init, n);
      LastNames(net, first, asked, n);
      hide NodesFrom, NamesAt;
      forall i | 0 <= i < last ensures NamesAt(net, first, asked, i, n) == NamesAt(net, first, init, i, n) {
        NamesAtPrefix(net, first, asked, last, i, n);
      }
      if i :| 0 <= i < last && NamesAt(net, first, init, i, n) {
        assert NamesAt(net, first, asked, i, n);
      }
    }
  }

  /** Every descriptor of an answer is collected, and no other. */
  lemma {:induction false} DescriptorsCollectedExactly(
    net: Transport, first: nat, asked: seq<NodeInfo>, d: Descriptor)
    ensures d in DescriptorsFrom(net, first, asked)
       <==> exists i | 0 <= i < |asked| :: SendsAt(net, first, asked, i, d)
  {
    hide MachineSized, ContentOf, DescriptorsIn, Sends, SendsAt;
    if asked != [] {
      var last := |asked| - 1;
      var init := asked[..last];
      DescriptorsCollectedExactly(net, first, init, d);
      LastSends(net, first, asked, d);
      hide DescriptorsFrom;
      forall i | 0 <= i < last ensures SendsAt(net, first, asked, i, d) == SendsAt(net, first, init, i, d) {
        SendsAtPrefix(net, first, asked, last, i, d);
      }
      if i :| 0 <= i < last && SendsAt(net, first, init, i, d) {
        assert SendsAt(net, first, asked, i, d);
      }
    }
  }

  // ----- the rounds of a lookup

  /** The candidates at the start of a round, and the nodes it asked. */
  datatype Round = Round(candidates: seq<NodeInfo>, asked: seq<NodeInfo>)

  function AllAsked(rounds: seq<Round>): seq<NodeInfo> {
    if rounds == [] then [] else AllAsked(rounds[..|rounds| - 1]) + rounds[|rounds| - 1].asked
  }

  function IdsOf(ids: NodeIds, nodes: seq<NodeInfo>): (r: seq<Id>)
    ensures |r| == |nodes|
    ensures forall i | 0 <= i < |nodes| :: r[i] == IdOfNode(ids, nodes[i])
  {
    if nodes == [] then [] else IdsOf(ids, nodes[..|nodes| - 1]) + [IdOfNode(ids, nodes[|nodes| - 1])]
  }

  function Unqueried(ids: NodeIds, candidates: seq<NodeInfo>, queried: seq<Id>): (r: seq<NodeInfo>)
    ensures forall n <- r :: n in candidates && IdOfNode(ids, n) !in queried
    ensures r == [] ==> forall n <- candidates :: IdOfNode(ids, n) in queried
  {
    if candidates == [] then []
    else (if IdOfNode(ids, candidates[0]) !in queried then [candidates[0]] else [])
         + Unqueried(ids, candidates[1..], queried)
  }

  /** Everything a lookup has heard of: the nodes it started with and those named in answers. */
  function Seen(net: Transport, initial: seq<NodeInfo>, rounds: seq<Round>): seq<NodeInfo> {
    initial + NodesFrom(net, 0, AllAsked(rounds))
  }

  /** The K closest of everything seen so far; before any answer, the initial nodes. */
  function CandidatesAfter(ids: NodeIds, target: Id, net: Transport, initial: seq<NodeInfo>, rounds: seq<Round>)
    : seq<NodeInfo>
  {
    if rounds == [] then initial else Take(Sort(ids, target, Seen(net, initial, rounds)), K)
  }

  /** The last round brought no node at all, although candidates may be left. */
  predicate LastRoundBarren(net: Transport, rounds: seq<Round>) {
    rounds != [] && NodesFrom(net, 0, AllAsked(rounds)) == NodesFrom(net, 0, AllAsked(rounds[..|rounds| - 1]))
  }

  /** No descriptor so far, and the last round brought nodes. */
  predicate GoesOn(net: Transport, rounds: seq<Round>) {
    DescriptorsFrom(net, 0, AllAsked(rounds)) == [] && !LastRoundBarren(net, rounds)
  }

  predicate RoundFollows(
    ids: NodeIds, target: Id, alpha: nat, net: Transport, initial: seq<NodeInfo>, before: seq<Round>, round: Round)
  {
    && round.candidates == CandidatesAfter(ids, target, net, initial, before)
    && round.asked == Take(Unqueried(ids, round.candidates, IdsOf(ids, AllAsked(before))), alpha)
    && round.asked != [] && GoesOn(net, before)
  }

  /**
   Each round asks the first alpha candidates that were never asked, candidates are the best
   of all seen, and there is no further round once descriptors came or no node did.
   */
  ghost predicate LookupRounds(
    ids: NodeIds, target: Id, alpha: nat, net: Transport, initial: seq<NodeInfo>, rounds: seq<Round>)
  {
    forall r | 0 <= r < |rounds| :: RoundFollows(ids, target, alpha, net, initial, rounds[..r], rounds[r])
  }

  lemma {:induction false} AskedEarlier(rounds: seq<Round>, r: nat, n: NodeInfo)
    requires r < |rounds| && n in rounds[r].asked
    ensures n in AllAsked(rounds)
  {
    var last := |rounds| - 1;
    if r < last {
      assert rounds[..last][r] == rounds[r];
      AskedEarlier(rounds[..last], r, n);
    }
  }

  /** No id is asked in two different rounds. */
  lemma NoIdInTwoRounds(
    ids: NodeIds, target: Id, alpha: nat, net: Transport, initial: seq<NodeInfo>, rounds: seq<Round>,
    a: nat, b: nat, x: NodeInfo, y: NodeInfo)
    requires LookupRounds(ids, target, alpha, net, initial, rounds)
    requires a < b < |rounds| && x in rounds[a].asked && y in rounds[b].asked
    ensures IdOfNode(ids, x) != IdOfNode(ids, y)
  {
    hide CandidatesAfter, IdsOf, Unqueried, AllAsked, GoesOn;
    var before := AllAsked(rounds[..b]);
    assert RoundFollows(ids, target, alpha, net, initial, rounds[..b], rounds[b]);
    assert y in Unqueried(ids, rounds[b].candidates, IdsOf(ids, before));
    hide RoundFollows, LookupRounds;
    AskedEarlier(rounds[..b], a, x);
    var i :| 0 <= i < |before| && before[i] == x;
    assert IdsOf(ids, before)[i] == IdOfNode(ids, x);
  }

  /** A round's candidates beat everything heard of and left out, and are K if anything is. */
  lemma CandidatesAreClosest(
    ids: NodeIds, target: Id, alpha: nat, net: Transport, initial: seq<NodeInfo>, rounds: seq<Round>,
    r: nat, chosen: NodeInfo, left: NodeInfo)
    requires LookupRounds(ids, target, alpha, net, initial, rounds) && 0 < r < |rounds|
    requires chosen in rounds[r].candidates
    requires left in Seen(net, initial, rounds[..r]) && left !in rounds[r].candidates
    ensures Dist(ids, target, chosen) <= Dist(ids, target, left) && |rounds[r].candidates| == K
  {
    hide Sort, Seen, Unqueried;
    assert RoundFollows(ids, target, alpha, net, initial, rounds[..r], rounds[r]);
    LeftOutMeansFull(ids, target, Seen(net, initial, rounds[..r]), K, left);
    hide Take;
    TakenAreClosest(ids, target, Seen(net, initial, rounds[..r]), K, chosen, left);
  }

  lemma {:induction false} UnqueriedSorted(ids: NodeIds, target: Id, candidates: seq<NodeInfo>, queried: seq<Id>)
    requires Sorted(ids, target, candidates)
    ensures Sorted(ids, target, Unqueried(ids, candidates, queried))
    ensures forall n <- candidates :: IdOfNode(ids, n) !in queried ==> n in Unqueried(ids, candidates, queried)
  {
    hide Dist, IdOfNode;
    if candidates != [] {
      UnqueriedSorted(ids, target, candidates[1..], queried);
      var rest := Unqueried(ids, candidates[1..], queried);
      forall n <- rest ensures Dist(ids, target, candidates[0]) <= Dist(ids, target, n) {
        assert n in candidates[1..];
      }
    }
  }

  lemma TakenSorted(ids: NodeIds, target: Id, s: seq<NodeInfo>, k: nat)
    ensures Sorted(ids, target, Take(Sort(ids, target, s), k))
  {
    SortIsStable(ids, target, s, 0);
    hide Sort, Dist;
  }

  /** Each round asks the closest candidates not asked before: alpha of them, if any is left out. */
  lemma AskedAreClosest(
    ids: NodeIds, target: Id, alpha: nat, net: Transport, initial: seq<NodeInfo>, rounds: seq<Round>,
    r: nat, x: NodeInfo, n: NodeInfo)
    requires LookupRounds(ids, target, alpha, net, initial, rounds) && Sorted(ids, target, initial)
    requires r < |rounds| && x in rounds[r].asked
    requires n in rounds[r].candidates && n !in rounds[r].asked
    requires IdOfNode(ids, n) !in IdsOf(ids, AllAsked(rounds[..r]))
    ensures Dist(ids, target, x) <= Dist(ids, target, n) && |rounds[r].asked| == alpha
  {
    assert RoundFollows(ids, target, alpha, net, initial, rounds[..r], rounds[r]);
    var queried := IdsOf(ids, AllAsked(rounds[..r]));
    TakenSorted(ids, target, Seen(net, initial, rounds[..r]), K);
    hide LookupRounds, GoesOn, Unqueried, Sort, Seen, AllAsked, IdsOf, IdOfNode, Dist;
    UnqueriedSorted(ids, target, rounds[r].candidates, queried);
    hide Sorted, Take, CandidatesAfter;
    FirstOfSorted(ids, target, Unqueried(ids, rounds[r].candidates, queried), alpha, x, n);
  }

  lemma FirstOfSorted(ids: NodeIds, target: Id, s: seq<NodeInfo>, k: nat, x: NodeInfo, n: NodeInfo)
    requires Sorted(ids, target, s) && x in Take(s, k) && n in s && n !in Take(s, k)
    ensures Dist(ids, target, x) <= Dist(ids, target, n) && |Take(s, k)| == k
  {
    hide Dist;
    var i :| 0 <= i < |s| && s[i] == n;
    var j :| 0 <= j < |Take(s, k)| && Take(s, k)[j] == x;
    assert i >= |Take(s, k)|;
  }

  lemma LastRound(rounds: seq<Round>, r: nat)
    requires 0 < r <= |rounds|
    ensures AllAsked(rounds[..r]) == AllAsked(rounds[..r - 1]) + rounds[r - 1].asked
  {
    assert rounds[..r][..r - 1] == rounds[..r - 1];
  }

  /** A round starts only while no answer has sent a descriptor and the round before named a node. */
  lemma StartedOnlyWhile(
    ids: NodeIds, target: Id, alpha: nat, net: Transport, initial: seq<NodeInfo>, rounds: seq<Round>, r: nat)
    requires LookupRounds(ids, target, alpha, net, initial, rounds) && 0 < r < |rounds|
    ensures var before := AllAsked(rounds[..r]);
            && (forall i, d: Descriptor | 0 <= i < |before| :: !SendsAt(net, 0, before, i, d))
            && exists i, n: NodeInfo | |before| - |rounds[r - 1].asked| <= i < |before| :: NamesAt(net, 0, before, i, n)
  {
    hide NodesFrom, DescriptorsFrom, AllAsked, CandidatesAfter, Unqueried, Take, IdsOf, NamesAt, SendsAt;
    var before, last, earlier := AllAsked(rounds[..r]), rounds[r - 1].asked, AllAsked(rounds[..r - 1]);
    assert RoundFollows(ids, target, alpha, net, initial, rounds[..r], rounds[r]);
    LastRound(rounds, r);
    assert rounds[..r][..r - 1] == rounds[..r - 1];
    assert DescriptorsFrom(net, 0, before) == [] && NodesFrom(net, 0, before) != NodesFrom(net, 0, earlier);
    hide *;
    NoneSent(net, before);
    SomeNamed(net, earlier, last);
  }

  lemma NoneSent(net: Transport, asked: seq<NodeInfo>)
    requires DescriptorsFrom(net, 0, asked) == []
    ensures forall i, d: Descriptor | 0 <= i < |asked| :: !SendsAt(net, 0, asked, i, d)
  {
    hide DescriptorsFrom, SendsAt;
    forall i, d: Descriptor | 0 <= i < |asked| ensures !SendsAt(net, 0, asked, i, d) {
      DescriptorsCollectedExactly(net, 0, asked, d);
    }
  }

  lemma SomeNamed(net: Transport, earlier: seq<NodeInfo>, last: seq<NodeInfo>)
    requires NodesFrom(net, 0, earlier + last) != NodesFrom(net, 0, earlier)
    ensures exists i, n: NodeInfo | |earlier| <= i < |earlier + last| :: NamesAt(net, 0, earlier + last, i, n)
  {
    hide NodesFrom, NamesAt;
    AskedConcat(net, 0, earlier, last, |earlier|);
    var named := NodesFrom(net, |earlier|, last);
    NodesCollectedExactly(net, |earlier|, last, named[0]);
    var i :| 0 <= i < |last| && NamesAt(net, |earlier|, last, i, named[0]);
    NamesAtConcat(net, earlier, last, i, named[0]);
  }

  lemma NamesAtConcat(net: Transport, earlier: seq<NodeInfo>, last: seq<NodeInfo>, i: nat, n: NodeInfo)
    requires i < |last|
    ensures NamesAt(net, 0, earlier + last, |earlier| + i, n) == NamesAt(net, |earlier|, last, i, n)
  {
  }

  // ----- termination

  lemma {:induction false} BoundedSetSize(s: set<nat>, n: nat)
    requires forall x <- s :: x < n
    ensures |s| <= n
    decreases n
  {
    if n > 0 {
      BoundedSetSize(s - {n - 1}, n - 1);
      assert |s| <= |s - {n - 1}| + 1;
    } else {
      assert s == {};
    }
  }

  ghost function QueriedSet(queried: seq<Id>): set<nat> {
    set id | id in queried
  }

  lemma QueriedWithinKeySpace(queried: seq<Id>)
    ensures |QueriedSet(queried)| <= Pow2(Distance.KEY_BITS)
  {
    BoundedSetSize(QueriedSet(queried), Pow2(Distance.KEY_BITS));
  }

  lemma QueriedGrows(queried: seq<Id>, more: seq<Id>)
    requires more != [] && more[0] !in queried
    ensures |QueriedSet(queried)| < |QueriedSet(queried + more)| <= Pow2(Distance.KEY_BITS)
  {
    var a, b := QueriedSet(queried), QueriedSet(queried + more);
    QueriedWithinKeySpace(queried + more);
    assert more[0] in b && more[0] !in a;
    assert b == a + (b - a) && more[0] in b - a;
  }

  // ----- the node

  /** Why the rounds of a lookup ended without a descriptor. */
  ghost predicate Exhausted(
    ids: NodeIds, target: Id, net: Transport, initial: seq<NodeInfo>, rounds: seq<Round>, alpha: nat)
  {
    || alpha == 0
    || (forall n <- CandidatesAfter(ids, target, net, initial, rounds) ::
          IdOfNode(ids, n) in IdsOf(ids, AllAsked(rounds)))
    || LastRoundBarren(net, rounds)
  }

  /** The first `asked` of `all` were asked: all of them, or up to the first that sent a descriptor. */
  ghost predicate StoppedAtFirst(
    net: Transport, first: nat, all: seq<NodeInfo>, collected: seq<Descriptor>, asked: nat)
  {
    && asked <= |all| && collected == DescriptorsFrom(net, first, all[..asked])
    && (collected == [] ==> asked == |all|)
    && (collected != [] ==> asked > 0 && DescriptorsFrom(net, first, all[..asked - 1]) == [])
  }

  /** The broadcast finds nothing exactly when every node was asked and none sent a descriptor. */
  lemma EmptyBroadcast(net: Transport, first: nat, all: seq<NodeInfo>, asked: nat)
    ensures StoppedAtFirst(net, first, all, [], asked)
       <==> asked == |all| && forall i | 0 <= i < |all| :: DescriptorsIn(net(first + i, all[i].addr)) == []
  {
    hide DescriptorsFrom, DescriptorsIn;
    EmptyMeansNoneSent(net, first, all);
    assert all[..|all|] == all;
  }

  /** Only the last of those asked in the fallback sent a descriptor, and all of what it sent is returned. */
  lemma OnlyTheLastSent(
    net: Transport, first: nat, all: seq<NodeInfo>, collected: seq<Descriptor>, asked: nat, i: nat, d: Descriptor)
    requires StoppedAtFirst(net, first, all, collected, asked) && i < asked
    ensures SendsAt(net, first, all, i, d) <==> i == asked - 1 && d in collected
  {
    hide DescriptorsFrom, SendsAt, DescriptorsIn;
    var sent, last := all[..asked], asked - 1;
    DescriptorsCollectedExactly(net, first, sent, d);
    DescriptorsCollectedExactly(net, first, all[..last], d);
    forall k | 0 <= k < asked ensures SendsAt(net, first, all, k, d) == SendsAt(net, first, sent, k, d) {
      SendsAtPrefix(net, first, all, asked, k, d);
    }
    forall k | 0 <= k < last ensures SendsAt(net, first, all, k, d) == SendsAt(net, first, all[..last], k, d) {
      SendsAtPrefix(net, first, all, last, k, d);
    }
  }

  /**
   What a lookup returns: all that its rounds found or, if that is nothing and the table is
   small, what the first node of the table to send a descriptor sends.
   */
  ghost predicate LookupAnswer(
    net: Transport, rounds: seq<Round>, all: seq<NodeInfo>, collected: seq<Descriptor>, broadcast: nat)
  {
    var found := DescriptorsFrom(net, 0, AllAsked(rounds));
    if found != [] || |all| > K then broadcast == 0 && collected == found
    else StoppedAtFirst(net, |AllAsked(rounds)|, all, collected, broadcast)
  }

  /** A lookup whose rounds found nothing finds something exactly when a node of the small table has it. */
  lemma LookupFindsExactly(
    net: Transport, rounds: seq<Round>, all: seq<NodeInfo>, collected: seq<Descriptor>, broadcast: nat)
    requires LookupAnswer(net, rounds, all, collected, broadcast)
    requires DescriptorsFrom(net, 0, AllAsked(rounds)) == [] && |all| <= K
    ensures collected != []
       <==> exists i | 0 <= i < |all| :: DescriptorsIn(net(|AllAsked(rounds)| + i, all[i].addr)) != []
  {
    hide DescriptorsFrom, DescriptorsIn, AllAsked, StoppedAtFirst;
    var first := |AllAsked(rounds)|;
    if collected == [] {
      EmptyBroadcast(net, first, all, broadcast);
    } else {
      BroadcastFound(net, first, all, collected, broadcast);
    }
  }

  lemma BroadcastFound(net: Transport, first: nat, all: seq<NodeInfo>, collected: seq<Descriptor>, asked: nat)
    requires StoppedAtFirst(net, first, all, collected, asked) && collected != []
    ensures exists i | 0 <= i < |all| :: DescriptorsIn(net(first + i, all[i].addr)) != []
  {
    hide DescriptorsFrom, DescriptorsIn;
    EmptyMeansNoneSent(net, first, all[..asked]);
  }

  /** If every answer with descriptors holds `d`, so does whatever is collected. */
  lemma {:induction false} CollectedHolds(net: Transport, first: nat, asked: seq<NodeInfo>, d: Descriptor)
    requires forall number: nat, addr ::
      DescriptorsIn(net(number, addr)) != [] ==> d in DescriptorsIn(net(number, addr))
    requires DescriptorsFrom(net, first, asked) != []
    ensures d in DescriptorsFrom(net, first, asked)
  {
    hide DescriptorsIn;
    var n := |asked| - 1;
    if DescriptorsFrom(net, first, asked[..n]) != [] {
      CollectedHolds(net, first, asked[..n], d);
    } else {
      assert DescriptorsIn(net(first + n, asked[n].addr)) != [];
    }
  }

  lemma StopsHere(net: Transport, first: nat, all: seq<NodeInfo>, j: nat)
    requires j < |all| && DescriptorsFrom(net, first, all[..j]) == []
    requires DescriptorsFrom(net, first, all[..j + 1]) != []
    ensures StoppedAtFirst(net, first, all, DescriptorsFrom(net, first, all[..j + 1]), j + 1)
    ensures exists i | 0 <= i < |all| :: DescriptorsIn(net(first + i, all[i].addr)) != []
  {
    hide DescriptorsFrom, DescriptorsIn;
    EmptyMeansNoneSent(net, first, all[..j + 1]);
  }

  lemma AllAskedInVain(net: Transport, first: nat, all: seq<NodeInfo>)
    requires DescriptorsFrom(net, first, all[..|all|]) == []
    ensures StoppedAtFirst(net, first, all, [], |all|)
    ensures forall i | 0 <= i < |all| :: DescriptorsIn(net(first + i, all[i].addr)) == []
  {
    hide DescriptorsFrom, DescriptorsIn;
    EmptyBroadcast(net, first, all, |all|);
  }

  class DhtNode {
    const ids: NodeIds
    const identity: Identity
    const table: RoutingTable
    const alpha: nat

    ghost predicate Valid()
      reads this, table
    {
      table.Valid() && table.ids == ids && table.localId == ids(identity.publicKey)
    }

    constructor (ids: NodeIds, identity: Identity, alpha: nat)
      ensures Valid() && fresh(table)
      ensures this.ids == ids && this.identity == identity && this.alpha == alpha
    {
      this.ids, this.identity, this.alpha := ids, identity, alpha;
      table := new RoutingTable(ids, ids(identity.publicKey));
    }

    /** Enters each node into the routing table; a full bucket keeps what it has. */
    method Learn(nodes: seq<NodeInfo>)
      requires Valid()
      modifies table
      ensures Valid()
      ensures table.Abstract() == AddAll(ids, table.localId, old(table.Abstract()), nodes)
    {
      ghost var before := table.Abstract();
      table.InvHasBuckets();
      hide Inv, Add;
      for i := 0 to |nodes|
        invariant Valid()
        invariant table.Abstract() == AddAll(ids, table.localId, before, nodes[..i])
      {
        var _ := table.AddNode(nodes[i]);
        AddAllNext(ids, table.localId, before, nodes[..i], nodes[i]);
        assert nodes[..i + 1] == nodes[..i] + [nodes[i]];
      }
      assert nodes[..|nodes|] == nodes;
    }

    /**
     Looks up the descriptors at a key. `rounds` records whom the main loop asked, and
     `broadcast` how many nodes of the table the fallback then asked: the answer is everything
     that all of these sent. When it is empty with at most K nodes in the table, all of them
     were asked in the fallback.
     */
    method LookupValue(target: Id, net: Transport)
      returns (collected: seq<Descriptor>, ghost initial: seq<NodeInfo>, ghost rounds: seq<Round>, ghost broadcast: nat)
      requires Valid()
      modifies table
      ensures Valid()
      ensures initial == Take(Sort(ids, target, Flatten(old(table.buckets))), alpha)
      ensures table.Abstract() == AddAll(ids, table.localId, old(table.Abstract()), NodesFrom(net, 0, AllAsked(rounds)))
      ensures LookupRounds(ids, target, alpha, net, initial, rounds)
      ensures LookupAnswer(net, rounds, Flatten(table.buckets), collected, broadcast)
      ensures DescriptorsFrom(net, 0, AllAsked(rounds)) == [] ==> Exhausted(ids, target, net, initial, rounds, alpha)
    {
      var sent;
      collected, sent, initial, rounds := AskInRounds(target, net);
      broadcast := 0;
      hide *;
      if collected == [] {
        var all := table.AllNodes();
        if |all| <= K {
          collected, broadcast := AskUntilFound(all, net, sent);
        }
      }
    }

    /** The main loop: round after round, until descriptors come, no node does, or no candidate is left. */
    method AskInRounds(target: Id, net: Transport)
      returns (collected: seq<Descriptor>, sent: nat, ghost initial: seq<NodeInfo>, ghost rounds: seq<Round>)
      requires Valid()
      modifies table
      ensures Valid()
      ensures initial == Take(Sort(ids, target, Flatten(old(table.buckets))), alpha)
      ensures table.Abstract() == AddAll(ids, table.localId, old(table.Abstract()), NodesFrom(net, 0, AllAsked(rounds)))
      ensures LookupRounds(ids, target, alpha, net, initial, rounds)
      ensures collected == DescriptorsFrom(net, 0, AllAsked(rounds)) && sent == |AllAsked(rounds)|
      ensures collected == [] ==> Exhausted(ids, target, net, initial, rounds, alpha)
    {
      table.InvHasBuckets();
      ghost var start := table.Abstract();
      assert |start.buckets| == NUM_BUCKETS;
      hide *;
      var queried: seq<Id> := [];
      var candidates := table.ClosestNodes(target, alpha);
      collected, sent, initial, rounds := [], 0, candidates, [];
      EmptyTrace(target, net, initial);
      AddAllNone(ids, table.localId, start);
      while true
        invariant Valid()
        invariant sent == |AllAsked(rounds)| && queried == IdsOf(ids, AllAsked(rounds))
        invariant collected == [] == DescriptorsFrom(net, 0, AllAsked(rounds))
        invariant candidates == CandidatesAfter(ids, target, net, initial, rounds)
        invariant LookupRounds(ids, target, alpha, net, initial, rounds) && GoesOn(net, rounds)
        invariant table.Abstract() == AddAll(ids, table.localId, start, NodesFrom(net, 0, AllAsked(rounds)))
        decreases Pow2(Distance.KEY_BITS) - |QueriedSet(queried)|
      {
        var toQuery := Take(Unqueried(ids, candidates, queried), alpha);
        if toQuery == [] {
          NothingLeft(target, net, initial, rounds, candidates, queried);
          break;
        }
        ghost var before, round := rounds, Round(candidates, toQuery);
        rounds := rounds + [round];
        RoundRecorded(target, net, initial, before, round, queried);
        var newNodes;
        AskedConcat(net, 0, AllAsked(before), toQuery, sent);
        collected, newNodes := AskRound(toQuery, net, sent);
        AddAllConcat(ids, table.localId, start, NodesFrom(net, 0, AllAsked(before)), newNodes);
        sent, queried := sent + |toQuery|, queried + IdsOf(ids, toQuery);
        if newNodes == [] && collected == [] {
          BarrenRound(target, net, initial, before, round);
          break;
        }
        MergeIsTopK(target, net, initial, before, round, newNodes);
        candidates := Take(Sort(ids, target, candidates + newNodes), K);
        if collected != [] {
          break;
        }
        FruitfulRound(net, before, round, newNodes);
      }
    }

    lemma EmptyTrace(target: Id, net: Transport, initial: seq<NodeInfo>)
      ensures LookupRounds(ids, target, alpha, net, initial, [])
      ensures IdsOf(ids, AllAsked([])) == [] && DescriptorsFrom(net, 0, AllAsked([])) == []
      ensures CandidatesAfter(ids, target, net, initial, []) == initial
      ensures NodesFrom(net, 0, AllAsked([])) == [] && GoesOn(net, [])
    {
    }

    lemma NothingLeft(
      target: Id, net: Transport, initial: seq<NodeInfo>, rounds: seq<Round>,
      candidates: seq<NodeInfo>, queried: seq<Id>)
      requires candidates == CandidatesAfter(ids, target, net, initial, rounds)
      requires queried == IdsOf(ids, AllAsked(rounds))
      requires Take(Unqueried(ids, candidates, queried), alpha) == []
      ensures Exhausted(ids, target, net, initial, rounds, alpha)
    {
    }

    /** Appending a round that follows: the trace stays a trace, and the queried ids grow. */
    lemma RoundRecorded(
      target: Id, net: Transport, initial: seq<NodeInfo>, before: seq<Round>, round: Round, queried: seq<Id>)
      requires LookupRounds(ids, target, alpha, net, initial, before) && GoesOn(net, before)
      requires round.candidates == CandidatesAfter(ids, target, net, initial, before)
      requires queried == IdsOf(ids, AllAsked(before))
      requires round.asked == Take(Unqueried(ids, round.candidates, queried), alpha) && round.asked != []
      ensures LookupRounds(ids, target, alpha, net, initial, before + [round])
      ensures AllAsked(before + [round]) == AllAsked(before) + round.asked
      ensures IdsOf(ids, AllAsked(before + [round])) == queried + IdsOf(ids, round.asked)
      ensures |QueriedSet(queried)| < |QueriedSet(queried + IdsOf(ids, round.asked))| <= Pow2(Distance.KEY_BITS)
    {
      hide CandidatesAfter, QueriedSet, IdsOf, Unqueried, Sort, GoesOn;
      RoundsExtend(target, net, initial, before, round);
      assert (before + [round])[..|before|] == before;
      IdsOfConcat(ids, AllAsked(before), round.asked);
      assert round.asked[0] in Unqueried(ids, round.candidates, queried);
      QueriedGrows(queried, IdsOf(ids, round.asked));
    }

    lemma RoundsExtend(target: Id, net: Transport, initial: seq<NodeInfo>, before: seq<Round>, round: Round)
      requires LookupRounds(ids, target, alpha, net, initial, before)
      requires RoundFollows(ids, target, alpha, net, initial, before, round)
      ensures LookupRounds(ids, target, alpha, net, initial, before + [round])
    {
      hide RoundFollows;
      var rounds := before + [round];
      forall r | 0 <= r < |rounds|
        ensures RoundFollows(ids, target, alpha, net, initial, rounds[..r], rounds[r])
      {
        if r < |before| {
          assert rounds[..r] == before[..r] && rounds[r] == before[r];
          assert RoundFollows(ids, target, alpha, net, initial, before[..r], before[r]);
        } else {
          assert rounds[..r] == before && rounds[r] == round;
        }
      }
    }

    lemma BarrenRound(target: Id, net: Transport, initial: seq<NodeInfo>, before: seq<Round>, round: Round)
      requires NodesFrom(net, 0, AllAsked(before + [round])) == NodesFrom(net, 0, AllAsked(before)) + []
      ensures Exhausted(ids, target, net, initial, before + [round], alpha)
    {
      assert (before + [round])[..|before|] == before;
    }

    lemma FruitfulRound(net: Transport, before: seq<Round>, round: Round, newNodes: seq<NodeInfo>)
      requires NodesFrom(net, 0, AllAsked(before + [round])) == NodesFrom(net, 0, AllAsked(before)) + newNodes
      requires newNodes != [] && DescriptorsFrom(net, 0, AllAsked(before + [round])) == []
      ensures GoesOn(net, before + [round])
    {
      hide AllAsked, NodesFrom, DescriptorsFrom;
      assert (before + [round])[..|before|] == before;
    }

    /** Merging into the truncated candidates is taking the K closest of everything seen. */
    lemma MergeIsTopK(
      target: Id, net: Transport, initial: seq<NodeInfo>, before: seq<Round>, round: Round, newNodes: seq<NodeInfo>)
      requires round.candidates == CandidatesAfter(ids, target, net, initial, before)
      requires NodesFrom(net, 0, AllAsked(before + [round])) == NodesFrom(net, 0, AllAsked(before)) + newNodes
      ensures Take(Sort(ids, target, round.candidates + newNodes), K)
           == CandidatesAfter(ids, target, net, initial, before + [round])
    {
      hide Sort, Take;
      assert Seen(net, initial, before + [round]) == Seen(net, initial, before) + newNodes;
      if before == [] {
        assert Seen(net, initial, []) == initial;
      } else {
        StreamingTopK(ids, target, Seen(net, initial, before), newNodes, K);
      }
    }

    /** Asks each node of the round once, learning the nodes that the answers name. */
    method AskRound(toQuery: seq<NodeInfo>, net: Transport, sent: nat)
      returns (collected: seq<Descriptor>, newNodes: seq<NodeInfo>)
      requires Valid()
      modifies table
      ensures Valid()
      ensures collected == DescriptorsFrom(net, sent, toQuery)
      ensures newNodes == NodesFrom(net, sent, toQuery)
      ensures table.Abstract() == AddAll(ids, table.localId, old(table.Abstract()), newNodes)
    {
      ghost var start := table.Abstract();
      table.InvHasBuckets();
      AddAllNone(ids, table.localId, start);
      assert NodesFrom(net, sent, toQuery[..0]) == [] && DescriptorsFrom(net, sent, toQuery[..0]) == [];
      hide DescriptorsFrom, NodesFrom, NodesIn, DescriptorsIn, Inv, AddAll;
      collected, newNodes := [], [];
      for j := 0 to |toQuery|
        invariant Valid()
        invariant collected == DescriptorsFrom(net, sent, toQuery[..j])
        invariant newNodes == NodesFrom(net, sent, toQuery[..j])
        invariant table.Abstract() == AddAll(ids, table.localId, start, newNodes)
      {
        var reply := net(sent + j, toQuery[j].addr);
        NextAnswer(net, sent, toQuery, j);
        AddAllConcat(ids, table.localId, start, newNodes, NodesIn(reply));
        collected := collected + DescriptorsIn(reply);
        Learn(NodesIn(reply));
        newNodes := newNodes + NodesIn(reply);
      }
      assert toQuery[..|toQuery|] == toQuery;
    }

    /** The small-network fallback: everyone in turn, until someone sends a descriptor. */
    method AskUntilFound(all: seq<NodeInfo>, net: Transport, sent: nat)
      returns (collected: seq<Descriptor>, ghost asked: nat)
      ensures StoppedAtFirst(net, sent, all, collected, asked)
      ensures collected == [] <==> forall i | 0 <= i < |all| :: DescriptorsIn(net(sent + i, all[i].addr)) == []
    {
      collected, asked := [], 0;
      AskNone(net, sent);
      hide DescriptorsFrom, NodesFrom, DescriptorsIn, NodesIn, StoppedAtFirst;
      for j := 0 to |all|
        invariant asked == j
        invariant collected == [] == DescriptorsFrom(net, sent, all[..j])
      {
        NextAnswer(net, sent, all, j);
        collected := collected + DescriptorsIn(net(sent + j, all[j].addr));
        asked := asked + 1;
        if collected != [] {
          StopsHere(net, sent, all, j);
          return;
        }
      }
      AllAskedInVain(net, sent, all);
    }
  }

  lemma IdsOfConcat(ids: NodeIds, a: seq<NodeInfo>, b: seq<NodeInfo>)
    ensures IdsOf(ids, a + b) == IdsOf(ids, a) + IdsOf(ids, b)
  {
    hide IdsOf;
    var all := IdsOf(ids, a + b);
    forall i | 0 <= i < |all| ensures all[i] == (IdsOf(ids, a) + IdsOf(ids, b))[i] {
    }
  }
}

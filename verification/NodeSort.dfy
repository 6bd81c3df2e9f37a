/**
 Nodes, their distance to a target, and the stable sort by that distance which the
 code uses everywhere. Node ids are 256-bit integers; how a public key is hashed to
 one is left open.
 */
module NodeSort {
  import opened Prelude
  import opened Descriptors
  import opened XorMetric
  import Distance

  type Id = n: nat | n < Pow2(Distance.KEY_BITS)

  /** BLAKE3 of the public key alone: identities that differ in the algorithm share an id. */
  type NodeIds = seq<byte> -> Id

  datatype NodeAddr = NodeAddr(protocol: string, address: string)

  datatype NodeInfo = NodeInfo(identity: Identity, addr: NodeAddr, lastSeen: nat)

  function IdOfNode(ids: NodeIds, n: NodeInfo): Id {
    ids(n.identity.publicKey)
  }

  function Dist(ids: NodeIds, target: Id, n: NodeInfo): nat {
    Xor(target, IdOfNode(ids, n))
  }

  // ----- the sort

  /** After every node that is no farther: equal distances keep their order. */
  function Insert(ids: NodeIds, target: Id, sorted: seq<NodeInfo>, x: NodeInfo): (r: seq<NodeInfo>)
    ensures |r| == |sorted| + 1
  {
    if sorted == [] then [x]
    else if Dist(ids, target, sorted[0]) <= Dist(ids, target, x) then
      [sorted[0]] + Insert(ids, target, sorted[1..], x)
    else [x] + sorted
  }

  function InsertAll(ids: NodeIds, target: Id, sorted: seq<NodeInfo>, xs: seq<NodeInfo>): (r: seq<NodeInfo>)
    ensures |r| == |sorted| + |xs|
  {
    if xs == [] then sorted
    else Insert(ids, target, InsertAll(ids, target, sorted, xs[..|xs| - 1]), xs[|xs| - 1])
  }

  function Sort(ids: NodeIds, target: Id, s: seq<NodeInfo>): (r: seq<NodeInfo>)
    ensures |r| == |s|
  {
    InsertAll(ids, target, [], s)
  }

  function Take(s: seq<NodeInfo>, count: nat): (r: seq<NodeInfo>)
    ensures r <= s && |r| == if |s| < count then |s| else count
  {
    if |s| <= count then s else s[..count]
  }

  // ----- it is the stable sort

  predicate Sorted(ids: NodeIds, target: Id, s: seq<NodeInfo>) {
    forall i, j | 0 <= i < j < |s| :: Dist(ids, target, s[i]) <= Dist(ids, target, s[j])
  }

  /** The nodes at distance `v`, in order. */
  function AtDistance(ids: NodeIds, target: Id, s: seq<NodeInfo>, v: nat): seq<NodeInfo> {
    if s == [] then []
    else (if Dist(ids, target, s[0]) == v then [s[0]] else []) + AtDistance(ids, target, s[1..], v)
  }

  lemma AtDistanceCons(ids: NodeIds, target: Id, x: NodeInfo, s: seq<NodeInfo>, v: nat)
    ensures AtDistance(ids, target, [x] + s, v)
         == (if Dist(ids, target, x) == v then [x] else []) + AtDistance(ids, target, s, v)
  {
    hide Dist;
    assert ([x] + s)[1..] == s;
  }

  lemma {:induction false} AtDistanceConcat(ids: NodeIds, target: Id, a: seq<NodeInfo>, b: seq<NodeInfo>, v: nat)
    ensures AtDistance(ids, target, a + b, v) == AtDistance(ids, target, a, v) + AtDistance(ids, target, b, v)
  {
    if a == [] {
      assert a + b == b;
    } else {
      var first, rest := a[0], a[1..];
      AtDistanceConcat(ids, target, rest, b, v);
      AtDistanceCons(ids, target, first, rest, v);
      AtDistanceCons(ids, target, first, rest + b, v);
      assert a == [first] + rest && a + b == [first] + (rest + b);
      hide AtDistance, Dist;
      Reassociate(if Dist(ids, target, first) == v then [first] else [],
                  AtDistance(ids, target, rest, v), AtDistance(ids, target, b, v));
    }
  }

  lemma {:induction false} AtDistanceFar(ids: NodeIds, target: Id, s: seq<NodeInfo>, v: nat)
    requires forall i | 0 <= i < |s| :: Dist(ids, target, s[i]) != v
    ensures AtDistance(ids, target, s, v) == []
  {
    hide Dist;
    if s != [] {
      AtDistanceFar(ids, target, s[1..], v);
    }
  }

  lemma InsertStep(ids: NodeIds, target: Id, sorted: seq<NodeInfo>, x: NodeInfo)
    ensures Insert(ids, target, sorted, x)
         == if sorted != [] && Dist(ids, target, sorted[0]) <= Dist(ids, target, x)
            then [sorted[0]] + Insert(ids, target, sorted[1..], x) else [x] + sorted
  {
  }

  lemma SortedPrepend(ids: NodeIds, target: Id, first: NodeInfo, rest: seq<NodeInfo>)
    requires Sorted(ids, target, rest)
    requires forall n | n in multiset(rest) :: Dist(ids, target, first) <= Dist(ids, target, n)
    ensures Sorted(ids, target, [first] + rest)
  {
    hide Dist;
    forall i | 0 <= i < |rest| ensures rest[i] in multiset(rest) {
    }
  }

  lemma HeadIsLeast(ids: NodeIds, target: Id, s: seq<NodeInfo>)
    requires s != [] && Sorted(ids, target, s)
    ensures Sorted(ids, target, s[1..])
    ensures forall n | n in multiset(s) :: Dist(ids, target, s[0]) <= Dist(ids, target, n)
    ensures multiset(s) == multiset{s[0]} + multiset(s[1..])
  {
    hide Dist;
    assert s == [s[0]] + s[1..];
  }

  lemma {:induction false} InsertSorts(ids: NodeIds, target: Id, sorted: seq<NodeInfo>, x: NodeInfo)
    requires Sorted(ids, target, sorted)
    ensures Sorted(ids, target, Insert(ids, target, sorted, x))
    ensures multiset(Insert(ids, target, sorted, x)) == multiset(sorted) + multiset{x}
  {
    InsertStep(ids, target, sorted, x);
    hide Dist, Sorted, Insert;
    if sorted != [] {
      HeadIsLeast(ids, target, sorted);
    }
    if sorted != [] && Dist(ids, target, sorted[0]) <= Dist(ids, target, x) {
      InsertSorts(ids, target, sorted[1..], x);
      SortedPrepend(ids, target, sorted[0], Insert(ids, target, sorted[1..], x));
    } else {
      SortedPrepend(ids, target, x, sorted);
    }
  }

  lemma {:induction false} InsertIsStable(ids: NodeIds, target: Id, sorted: seq<NodeInfo>, x: NodeInfo, v: nat)
    requires Sorted(ids, target, sorted)
    ensures AtDistance(ids, target, Insert(ids, target, sorted, x), v)
         == AtDistance(ids, target, sorted, v) + AtDistance(ids, target, [x], v)
  {
    hide Dist;
    if sorted == [] {
    } else if Dist(ids, target, sorted[0]) <= Dist(ids, target, x) {
      InsertIsStable(ids, target, sorted[1..], x, v);
      var first, rest := sorted[0], Insert(ids, target, sorted[1..], x);
      assert Insert(ids, target, sorted, x) == [first] + rest && sorted == [first] + sorted[1..];
      hide AtDistance, Insert;
      AtDistanceConcat(ids, target, [first], rest, v);
      AtDistanceConcat(ids, target, [first], sorted[1..], v);
    } else {
      assert AtDistance(ids, target, [x], v) == if Dist(ids, target, x) == v then [x] else [];
      hide AtDistance;
      if Dist(ids, target, x) == v {
        AtDistanceFar(ids, target, sorted, v);
      }
      AtDistanceConcat(ids, target, [x], sorted, v);
    }
  }

  /** The result ascends, and at each distance has the nodes of the input in their order. */
  lemma {:induction false} SortIsStable(ids: NodeIds, target: Id, s: seq<NodeInfo>, v: nat)
    ensures Sorted(ids, target, Sort(ids, target, s))
    ensures multiset(Sort(ids, target, s)) == multiset(s)
    ensures AtDistance(ids, target, Sort(ids, target, s), v) == AtDistance(ids, target, s, v)
    decreases |s|
  {
    hide Dist, Insert, AtDistance, Sorted;
    if s == [] {
      assert Sorted(ids, target, []) by { EmptySorted(ids, target); }
    } else {
      var init, last := s[..|s| - 1], s[|s| - 1];
      SortIsStable(ids, target, init, v);
      InsertSorts(ids, target, Sort(ids, target, init), last);
      InsertIsStable(ids, target, Sort(ids, target, init), last, v);
      AtDistanceConcat(ids, target, init, [last], v);
      assert s == init + [last];
    }
  }

  lemma EmptySorted(ids: NodeIds, target: Id)
    ensures Sorted(ids, target, [])
  {
  }

  lemma AtDistanceTail(ids: NodeIds, target: Id, s: seq<NodeInfo>, v: nat)
    requires s != []
    ensures var all := AtDistance(ids, target, s, v);
            if Dist(ids, target, s[0]) == v then
              all != [] && AtDistance(ids, target, s[1..], v) == all[1..]
            else AtDistance(ids, target, s[1..], v) == all
  {
  }

  ghost predicate SameAtEachDistance(ids: NodeIds, target: Id, a: seq<NodeInfo>, b: seq<NodeInfo>) {
    forall v: nat :: AtDistance(ids, target, a, v) == AtDistance(ids, target, b, v)
  }

  /** The closest node of a sorted list is no farther than any node of the other. */
  lemma HeadIsNoFarther(ids: NodeIds, target: Id, a: seq<NodeInfo>, b: seq<NodeInfo>)
    requires Sorted(ids, target, a) && SameAtEachDistance(ids, target, a, b) && b != []
    ensures a != [] && Dist(ids, target, a[0]) <= Dist(ids, target, b[0])
  {
    hide Dist, AtDistance;
    var w := Dist(ids, target, b[0]);
    AtDistanceTail(ids, target, b, w);
    assert AtDistance(ids, target, a, w) != [];
    if a == [] || Dist(ids, target, a[0]) > w {
      AtDistanceFar(ids, target, a, w);
    }
  }

  /** No other list has these two properties. */
  lemma {:induction false} StableSortUnique(ids: NodeIds, target: Id, a: seq<NodeInfo>, b: seq<NodeInfo>)
    requires Sorted(ids, target, a) && Sorted(ids, target, b)
    requires SameAtEachDistance(ids, target, a, b)
    ensures a == b
  {
    hide Dist, AtDistance;
    if a != [] {
      HeadIsNoFarther(ids, target, b, a);
    }
    if b != [] {
      HeadIsNoFarther(ids, target, a, b);
      var u := Dist(ids, target, a[0]);
      assert AtDistance(ids, target, a, u) == AtDistance(ids, target, b, u);
      HeadIsFirst(ids, target, a);
      HeadIsFirst(ids, target, b);
      assert SameAtEachDistance(ids, target, a[1..], b[1..]) by {
        forall v: nat ensures AtDistance(ids, target, a[1..], v) == AtDistance(ids, target, b[1..], v) {
          assert AtDistance(ids, target, a, v) == AtDistance(ids, target, b, v);
          AtDistanceTail(ids, target, a, v);
          AtDistanceTail(ids, target, b, v);
        }
      }
      StableSortUnique(ids, target, a[1..], b[1..]);
      assert a == [a[0]] + a[1..] && b == [b[0]] + b[1..];
    }
  }

  lemma HeadIsFirst(ids: NodeIds, target: Id, s: seq<NodeInfo>)
    requires s != []
    ensures var all := AtDistance(ids, target, s, Dist(ids, target, s[0])); all != [] && all[0] == s[0]
  {
  }

  // ----- keeping only the closest

  lemma {:induction false} TakeOfInsert(ids: NodeIds, target: Id, s: seq<NodeInfo>, x: NodeInfo, k: nat)
    ensures Take(Insert(ids, target, Take(s, k), x), k) == Take(Insert(ids, target, s, x), k)
  {
    hide Dist;
    if |s| > k > 0 && Dist(ids, target, s[0]) <= Dist(ids, target, x) {
      TakeOfInsert(ids, target, s[1..], x, k - 1);
      assert s[..k][1..] == s[1..][..k - 1];
    }
  }

  lemma {:induction false} TakeOfInsertAll(ids: NodeIds, target: Id, s: seq<NodeInfo>, xs: seq<NodeInfo>, k: nat)
    ensures Take(InsertAll(ids, target, Take(s, k), xs), k) == Take(InsertAll(ids, target, s, xs), k)
    decreases |xs|
  {
    hide Insert, Take;
    if xs == [] {
      TakeTwice(s, k);
    } else {
      var init, last := xs[..|xs| - 1], xs[|xs| - 1];
      TakeOfInsertAll(ids, target, s, init, k);
      TakeOfInsert(ids, target, InsertAll(ids, target, s, init), last, k);
      TakeOfInsert(ids, target, InsertAll(ids, target, Take(s, k), init), last, k);
    }
  }

  lemma TakeTwice(s: seq<NodeInfo>, k: nat)
    ensures Take(Take(s, k), k) == Take(s, k)
  {
  }

  lemma {:induction false} SortOfConcat(ids: NodeIds, target: Id, a: seq<NodeInfo>, b: seq<NodeInfo>)
    ensures Sort(ids, target, a + b) == InsertAll(ids, target, Sort(ids, target, a), b)
    decreases |b|
  {
    hide Insert;
    if b == [] {
      assert a + b == a;
    } else {
      var init, last := b[..|b| - 1], b[|b| - 1];
      SortOfConcat(ids, target, a, init);
      assert (a + b)[..|a + b| - 1] == a + init;
    }
  }

  lemma {:induction false} InsertAtEnd(ids: NodeIds, target: Id, s: seq<NodeInfo>, x: NodeInfo)
    requires forall i | 0 <= i < |s| :: Dist(ids, target, s[i]) <= Dist(ids, target, x)
    ensures Insert(ids, target, s, x) == s + [x]
  {
    hide Dist;
    if s != [] {
      InsertAtEnd(ids, target, s[1..], x);
    }
  }

  lemma {:induction false} SortOfSorted(ids: NodeIds, target: Id, s: seq<NodeInfo>)
    requires Sorted(ids, target, s)
    ensures Sort(ids, target, s) == s
    decreases |s|
  {
    hide Dist, Insert;
    if s != [] {
      var init, last := s[..|s| - 1], s[|s| - 1];
      SortOfSorted(ids, target, init);
      InsertAtEnd(ids, target, init, last);
      assert s == init + [last];
    }
  }

  /** Sorting and truncating after every arrival loses nothing against one sort of everything. */
  lemma StreamingTopK(ids: NodeIds, target: Id, seen: seq<NodeInfo>, more: seq<NodeInfo>, k: nat)
    ensures Take(Sort(ids, target, Take(Sort(ids, target, seen), k) + more), k)
         == Take(Sort(ids, target, seen + more), k)
  {
    hide InsertAll, Dist;
    var best := Take(Sort(ids, target, seen), k);
    SortIsStable(ids, target, seen, 0);
    assert Sorted(ids, target, best);
    SortOfSorted(ids, target, best);
    hide Sort, Take;
    SortOfConcat(ids, target, best, more);
    SortOfConcat(ids, target, seen, more);
    TakeOfInsertAll(ids, target, Sort(ids, target, seen), more, k);
  }

  /** What is taken is nowhere farther than what is left. */
  lemma TakenAreClosest(ids: NodeIds, target: Id, s: seq<NodeInfo>, k: nat, chosen: NodeInfo, left: NodeInfo)
    requires chosen in Take(Sort(ids, target, s), k)
    requires left in s && left !in Take(Sort(ids, target, s), k)
    ensures chosen in s && Dist(ids, target, chosen) <= Dist(ids, target, left)
  {
    hide Dist, Sort;
    SortIsStable(ids, target, s, 0);
    var r := Sort(ids, target, s);
    assert left in multiset(r) && left in r;
    var i :| 0 <= i < |Take(r, k)| && Take(r, k)[i] == chosen;
    var j :| 0 <= j < |r| && r[j] == left;
    assert chosen in multiset(r) && chosen in multiset(s);
  }

  /** Nothing is left out while there is room. */
  lemma LeftOutMeansFull(ids: NodeIds, target: Id, s: seq<NodeInfo>, k: nat, left: NodeInfo)
    requires left in s && left !in Take(Sort(ids, target, s), k)
    ensures |Take(Sort(ids, target, s), k)| == k
  {
    hide Dist, Sort;
    SortIsStable(ids, target, s, 0);
    assert left in multiset(Sort(ids, target, s));
  }

  // ----- groups of nodes at separated distances

  ghost predicate AllCloser(ids: NodeIds, target: Id, a: seq<NodeInfo>, b: seq<NodeInfo>) {
    forall x <- a, y <- b :: Dist(ids, target, x) < Dist(ids, target, y)
  }

  /** When one group is strictly closer, sorting the union is sorting each group. */
  lemma SortOfSeparated(ids: NodeIds, target: Id, near: seq<NodeInfo>, far: seq<NodeInfo>)
    requires AllCloser(ids, target, near, far)
    ensures Sort(ids, target, near + far) == Sort(ids, target, near) + Sort(ids, target, far)
    ensures Sort(ids, target, far + near) == Sort(ids, target, near) + Sort(ids, target, far)
  {
    hide Dist, Sort;
    var joined := Sort(ids, target, near) + Sort(ids, target, far);
    JoinedSorted(ids, target, near, far);
    forall v
      ensures AtDistance(ids, target, joined, v) == AtDistance(ids, target, Sort(ids, target, near + far), v)
      ensures AtDistance(ids, target, joined, v) == AtDistance(ids, target, Sort(ids, target, far + near), v)
    {
      JoinedStable(ids, target, near, far, v);
    }
    SortIsStable(ids, target, near + far, 0);
    SortIsStable(ids, target, far + near, 0);
    StableSortUnique(ids, target, joined, Sort(ids, target, near + far));
    StableSortUnique(ids, target, joined, Sort(ids, target, far + near));
  }

  lemma JoinedSorted(ids: NodeIds, target: Id, near: seq<NodeInfo>, far: seq<NodeInfo>)
    requires AllCloser(ids, target, near, far)
    ensures Sorted(ids, target, Sort(ids, target, near) + Sort(ids, target, far))
  {
    hide Dist, Sort;
    var a, b := Sort(ids, target, near), Sort(ids, target, far);
    SortIsStable(ids, target, near, 0);
    SortIsStable(ids, target, far, 0);
    forall x, y | x in a && y in b ensures Dist(ids, target, x) < Dist(ids, target, y) {
      assert x in multiset(a) && y in multiset(b);
      assert x in near && y in far;
    }
  }

  lemma JoinedStable(ids: NodeIds, target: Id, near: seq<NodeInfo>, far: seq<NodeInfo>, v: nat)
    requires AllCloser(ids, target, near, far)
    ensures var joined := AtDistance(ids, target, Sort(ids, target, near) + Sort(ids, target, far), v);
            && joined == AtDistance(ids, target, Sort(ids, target, near + far), v)
            && joined == AtDistance(ids, target, Sort(ids, target, far + near), v)
  {
    hide Dist, Sort, AtDistance;
    SortIsStable(ids, target, near, v);
    SortIsStable(ids, target, far, v);
    SortIsStable(ids, target, near + far, v);
    SortIsStable(ids, target, far + near, v);
    AtDistanceConcat(ids, target, Sort(ids, target, near), Sort(ids, target, far), v);
    AtDistanceConcat(ids, target, near, far, v);
    AtDistanceConcat(ids, target, far, near, v);
    if exists x <- near :: Dist(ids, target, x) == v {
      AtDistanceFar(ids, target, far, v);
    } else {
      AtDistanceFar(ids, target, near, v);
    }
  }
}

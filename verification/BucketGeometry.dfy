/**
 The buckets and the flat sort: in which order `closest_nodes` goes through the buckets
 of the routing table.
 */
module BucketGeometry {
  import opened Prelude
  import opened XorMetric
  import opened NodeSort
  import opened KBuckets

  /** The buckets from `lo` up to `hi`, each sorted by itself, one after the other. */
  function SortedRange(ids: NodeIds, target: Id, buckets: seq<seq<NodeInfo>>, lo: nat, hi: nat): seq<NodeInfo>
    requires hi <= |buckets|
  {
    if hi <= lo then []
    else SortedRange(ids, target, buckets, lo, hi - 1) + Sort(ids, target, buckets[hi - 1])
  }

  /** How far a node of bucket `j` is from a target of bucket `i`, by bit length. */
  lemma BucketDecidesLength(ids: NodeIds, local: Id, target: Id, e: NodeInfo, i: nat, j: nat)
    requires BucketFor(local, target) == Some(i) && BucketFor(local, IdOfNode(ids, e)) == Some(j)
    ensures j == i ==> BitLength(Dist(ids, target, e)) <= i
    ensures j < i ==> BitLength(Dist(ids, target, e)) == i + 1
    ensures j > i ==> BitLength(Dist(ids, target, e)) == j + 1
  {
    var a, b := Xor(local, target), Xor(local, IdOfNode(ids, e));
    XorCancels(local, target, IdOfNode(ids, e));
    hide Xor;
    if j == i {
      XorOfSameLength(a, b);
    } else if j < i {
      XorOfLonger(b, a);
    } else {
      XorOfLonger(a, b);
    }
  }

  lemma {:induction false} InSomeBucket(buckets: seq<seq<NodeInfo>>, e: NodeInfo) returns (j: nat)
    requires e in Flatten(buckets)
    ensures j < |buckets| && e in buckets[j]
  {
    var n := |buckets| - 1;
    if e in buckets[n] {
      j := n;
    } else {
      j := InSomeBucket(buckets[..n], e);
    }
  }

  lemma BucketPlaces(ids: NodeIds, local: Id, t: Table, j: nat, e: NodeInfo)
    requires Inv(ids, local, t) && j < NUM_BUCKETS && e in t.buckets[j]
    ensures BucketFor(local, IdOfNode(ids, e)) == Some(j)
  {
    assert BucketOk(ids, local, t, j);
  }

  /** The target's own bucket is strictly closer than all buckets below it. */
  lemma OwnBucketFirst(ids: NodeIds, local: Id, t: Table, target: Id, i: nat)
    requires Inv(ids, local, t) && BucketFor(local, target) == Some(i)
    ensures AllCloser(ids, target, t.buckets[i], Flatten(t.buckets[..i]))
  {
    hide BucketFor, Dist, BucketOk, BitLength, Xor;
    forall x, y | x in t.buckets[i] && y in Flatten(t.buckets[..i])
      ensures Dist(ids, target, x) < Dist(ids, target, y)
    {
      var j := InSomeBucket(t.buckets[..i], y);
      BucketPlaces(ids, local, t, i, x);
      BucketPlaces(ids, local, t, j, y);
      BucketDecidesLength(ids, local, target, x, i, i);
      BucketDecidesLength(ids, local, target, y, i, j);
      BitLengthMonotone(Dist(ids, target, x), Dist(ids, target, y));
    }
  }

  /** A bucket above the target's is strictly farther than all buckets before it. */
  lemma HigherBucketLast(ids: NodeIds, local: Id, t: Table, target: Id, i: nat, n: nat)
    requires Inv(ids, local, t) && BucketFor(local, target) == Some(i) && i < n < NUM_BUCKETS
    ensures AllCloser(ids, target, Flatten(t.buckets[..n]), t.buckets[n])
  {
    hide BucketFor, Dist, BucketOk, BitLength, Xor;
    forall x, y | x in Flatten(t.buckets[..n]) && y in t.buckets[n]
      ensures Dist(ids, target, x) < Dist(ids, target, y)
    {
      var j := InSomeBucket(t.buckets[..n], x);
      BucketPlaces(ids, local, t, j, x);
      BucketPlaces(ids, local, t, n, y);
      BucketDecidesLength(ids, local, target, x, i, j);
      BucketDecidesLength(ids, local, target, y, i, n);
      BitLengthMonotone(Dist(ids, target, x), Dist(ids, target, y));
    }
  }

  lemma FlattenNext(buckets: seq<seq<NodeInfo>>, n: nat)
    requires n < |buckets|
    ensures Flatten(buckets[..n + 1]) == Flatten(buckets[..n]) + buckets[n]
  {
    assert buckets[..n + 1][..n] == buckets[..n];
  }

  lemma {:induction false} PrefixOrder(ids: NodeIds, local: Id, t: Table, target: Id, i: nat, n: nat)
    requires Inv(ids, local, t) && BucketFor(local, target) == Some(i) && i < n <= NUM_BUCKETS
    ensures Sort(ids, target, Flatten(t.buckets[..n]))
         == Sort(ids, target, t.buckets[i]) + Sort(ids, target, Flatten(t.buckets[..i]))
            + SortedRange(ids, target, t.buckets, i + 1, n)
  {
    hide BucketFor, Dist, BucketOk, Sort, AllCloser, Flatten;
    if n == i + 1 {
      OwnBucketFirst(ids, local, t, target, i);
      FlattenNext(t.buckets, i);
      SortOfSeparated(ids, target, t.buckets[i], Flatten(t.buckets[..i]));
    } else {
      PrefixOrder(ids, local, t, target, i, n - 1);
      HigherBucketLast(ids, local, t, target, i, n - 1);
      FlattenNext(t.buckets, n - 1);
      SortOfSeparated(ids, target, Flatten(t.buckets[..n - 1]), t.buckets[n - 1]);
    }
  }

  /**
   For a target in bucket i, the nodes by distance are: bucket i, then all the buckets
   below it merged, then bucket i + 1, i + 2, and so on, each sorted by itself.
   */
  lemma BucketsInOrder(ids: NodeIds, local: Id, t: Table, target: Id, i: nat)
    requires Inv(ids, local, t) && BucketFor(local, target) == Some(i)
    ensures Sort(ids, target, Flatten(t.buckets))
         == Sort(ids, target, t.buckets[i]) + Sort(ids, target, Flatten(t.buckets[..i]))
            + SortedRange(ids, target, t.buckets, i + 1, NUM_BUCKETS)
  {
    hide BucketFor, BucketOk, Sort, Flatten, SortedRange;
    PrefixOrder(ids, local, t, target, i, NUM_BUCKETS);
    assert t.buckets[..NUM_BUCKETS] == t.buckets;
  }

  lemma LowerBucketsCloser(ids: NodeIds, local: Id, t: Table, n: nat)
    requires Inv(ids, local, t) && n < NUM_BUCKETS
    ensures AllCloser(ids, local, Flatten(t.buckets[..n]), t.buckets[n])
  {
    hide BucketOk, BitLength, Xor;
    forall x, y | x in Flatten(t.buckets[..n]) && y in t.buckets[n]
      ensures Dist(ids, local, x) < Dist(ids, local, y)
    {
      var j := InSomeBucket(t.buckets[..n], x);
      BucketPlaces(ids, local, t, j, x);
      BucketPlaces(ids, local, t, n, y);
      BitLengthMonotone(Dist(ids, local, x), Dist(ids, local, y));
    }
  }

  /** For the local id itself the order is that of the buckets: bucket 0 is the closest. */
  lemma {:induction false} OwnIdOrder(ids: NodeIds, local: Id, t: Table, n: nat)
    requires Inv(ids, local, t) && n <= NUM_BUCKETS
    ensures Sort(ids, local, Flatten(t.buckets[..n])) == SortedRange(ids, local, t.buckets, 0, n)
  {
    hide Dist, BucketOk, AllCloser;
    if n > 0 {
      OwnIdOrder(ids, local, t, n - 1);
      LowerBucketsCloser(ids, local, t, n - 1);
      FlattenNext(t.buckets, n - 1);
      SortOfSeparated(ids, local, Flatten(t.buckets[..n - 1]), t.buckets[n - 1]);
    }
  }
}

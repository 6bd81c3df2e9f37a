/** Routing keys of capability paths, and what hierarchical publication makes discoverable. */
module RoutingKeys {
  import opened Prelude
  import opened Descriptors
  import opened SlotMachine

  const SLASH: byte := 47

  /** The segments of a path; an empty path has one empty segment. */
  function Split(path: seq<byte>): (parts: seq<seq<byte>>)
    ensures parts != []
  {
    if path == [] then [[]]
    else
      var n := |path| - 1;
      var init, c := Split(path[..n]), path[n];
      if c == SLASH then init + [[]] else init[|init| - 1 := init[|init| - 1] + [c]]
  }

  function Join(parts: seq<seq<byte>>): seq<byte>
    requires parts != []
  {
    var n := |parts| - 1;
    if n == 0 then parts[0] else Join(parts[..n]) + [SLASH] + parts[n]
  }

  function RoutingKey(p: Primitives, typeString: seq<byte>): Hash {
    Blake3(p, Ascii("mesh:route:") + typeString)
  }

  /** Routing keys are hashed under a prefix of their own: they tell strings apart and are never a core schema. */
  lemma RoutingKeysApart(p: Primitives, a: seq<byte>, b: seq<byte>)
    requires CollisionFree(p)
    ensures RoutingKey(p, a) == RoutingKey(p, b) <==> a == b
    ensures RoutingKey(p, a) != RevocationSchema(p) && RoutingKey(p, a) != KeyRotationSchema(p)
    ensures RoutingKey(p, a) == Hash(3, p.blake3([109, 101, 115, 104, 58, 114, 111, 117, 116, 101, 58] + a))
  {
    var prefix := Ascii("mesh:route:");
    assert prefix == [109, 101, 115, 104, 58, 114, 111, 117, 116, 101, 58];
    assert (prefix + a)[|prefix|..] == a && (prefix + b)[|prefix|..] == b;
    assert (prefix + a)[5] != Ascii("mesh:schema:core/revocation")[5];
    assert (prefix + a)[5] != Ascii("mesh:schema:core/key-rotation")[5];
  }

  /** One key per level of the path, the whole path last. */
  function KeysOfPath(p: Primitives, path: seq<byte>): (keys: seq<Hash>)
    ensures |keys| == |Split(path)|
    ensures forall i | 0 <= i < |keys| :: keys[i] == RoutingKey(p, Join(Split(path)[..i + 1]))
  {
    seq(|Split(path)|, i requires 0 <= i < |Split(path)| => RoutingKey(p, Join(Split(path)[..i + 1])))
  }

  method HierarchicalRoutingKeys(p: Primitives, path: seq<byte>) returns (keys: seq<Hash>)
    ensures keys == KeysOfPath(p, path)
  {
    var parts := Split(path);
    keys := [];
    for i := 0 to |parts|
      invariant |keys| == i
      invariant forall j | 0 <= j < i :: keys[j] == RoutingKey(p, Join(parts[..j + 1]))
    {
      var prefix := Join(parts[..i + 1]);
      keys := keys + [RoutingKey(p, prefix)];
    }
  }

  // ----- splitting and joining

  predicate SlashFree(parts: seq<seq<byte>>) {
    forall i | 0 <= i < |parts| :: SLASH !in parts[i]
  }

  lemma {:induction false} SplitIsSlashFree(path: seq<byte>)
    ensures SlashFree(Split(path))
  {
    if path != [] {
      SplitIsSlashFree(path[..|path| - 1]);
    }
  }

  lemma JoinGrowsLast(parts: seq<seq<byte>>, c: byte)
    requires parts != []
    ensures Join(parts[|parts| - 1 := parts[|parts| - 1] + [c]]) == Join(parts) + [c]
    ensures Join(parts + [[]]) == Join(parts) + [SLASH]
  {
    var n := |parts| - 1;
    assert parts[n := parts[n] + [c]][..n] == parts[..n];
    assert (parts + [[]])[..|parts|] == parts;
  }

  lemma {:induction false} JoinOfSplit(path: seq<byte>)
    ensures Join(Split(path)) == path
  {
    if path != [] {
      var n := |path| - 1;
      JoinOfSplit(path[..n]);
      JoinGrowsLast(Split(path[..n]), path[n]);
      assert path == path[..n] + [path[n]];
    }
  }

  lemma SplitSnoc(path: seq<byte>, c: byte)
    ensures Split(path + [c]) ==
      (var init := Split(path);
       if c == SLASH then init + [[]] else init[|init| - 1 := init[|init| - 1] + [c]])
  {
    assert (path + [c])[..|path|] == path;
  }

  /** Appending a segment without slashes only extends the last segment. */
  lemma {:induction false} SplitExtends(path: seq<byte>, tail: seq<byte>)
    requires SLASH !in tail
    ensures var init := Split(path);
            Split(path + tail) == init[|init| - 1 := init[|init| - 1] + tail]
  {
    var init := Split(path);
    hide Split;
    if tail == [] {
      assert path + tail == path && init[|init| - 1] + tail == init[|init| - 1];
    } else {
      var front, c := tail[..|tail| - 1], tail[|tail| - 1];
      SplitExtends(path, front);
      SplitSnoc(path + front, c);
      Reassociate(path, front, [c]);
      Reassociate(init[|init| - 1], front, [c]);
      assert tail == front + [c];
    }
  }

  lemma {:induction false} SplitOfJoin(parts: seq<seq<byte>>)
    requires parts != [] && SlashFree(parts)
    ensures Split(Join(parts)) == parts
  {
    var n := |parts| - 1;
    if n == 0 {
      SplitExtends([], parts[0]);
      assert [] + parts[0] == parts[0];
    } else {
      var front, last := parts[..n], parts[n];
      SplitOfJoin(front);
      hide Split;
      SplitSnoc(Join(front), SLASH);
      SplitExtends(Join(front) + [SLASH], last);
      assert [] + last == last;
      assert (front + [[]])[n := last] == parts;
    }
  }

  // ----- the keys of a path

  lemma RoutingKeyInjective(p: Primitives, a: seq<byte>, b: seq<byte>)
    requires CollisionFree(p) && RoutingKey(p, a) == RoutingKey(p, b)
    ensures a == b
  {
    var n := |Ascii("mesh:route:")|;
    assert (Ascii("mesh:route:") + a)[n..] == a && (Ascii("mesh:route:") + b)[n..] == b;
  }

  /** A key is among those of a path exactly when it names a prefix of the path's segments. */
  lemma KeyNamesPrefix(p: Primitives, path: seq<byte>, q: seq<byte>)
    requires CollisionFree(p)
    ensures RoutingKey(p, q) in KeysOfPath(p, path) <==> Split(q) <= Split(path)
  {
    hide Blake3, Ascii, CollisionFree, Join, Split;
    var keys, parts := KeysOfPath(p, path), Split(path);
    SplitIsSlashFree(path);
    if RoutingKey(p, q) in keys {
      var i :| 0 <= i < |keys| && keys[i] == RoutingKey(p, q);
      RoutingKeyInjective(p, q, Join(parts[..i + 1]));
      SplitOfJoin(parts[..i + 1]);
    }
    if Split(q) <= parts {
      var n := |Split(q)|;
      assert Split(q) == parts[..n];
      JoinOfSplit(q);
      assert keys[n - 1] == RoutingKey(p, q);
    }
  }

  /** The levels of a path have different keys. */
  lemma KeysDistinct(p: Primitives, path: seq<byte>, i: nat, j: nat)
    requires CollisionFree(p) && i < j < |KeysOfPath(p, path)|
    ensures KeysOfPath(p, path)[i] != KeysOfPath(p, path)[j]
  {
    hide Blake3, Ascii, CollisionFree, Join, Split;
    var parts := Split(path);
    if KeysOfPath(p, path)[i] == KeysOfPath(p, path)[j] {
      SplitIsSlashFree(path);
      RoutingKeyInjective(p, Join(parts[..i + 1]), Join(parts[..j + 1]));
      SplitOfJoin(parts[..i + 1]);
      SplitOfJoin(parts[..j + 1]);
    }
  }

  /**
   Hierarchical discovery: while a descriptor published under a path is current, a query
   for `q` returns it exactly when it is visible and the segments of `q` are a prefix.
   */
  lemma DiscoveredExactlyAtPrefixes(
    p: Primitives, st: State, d: Descriptor, path: seq<byte>, q: seq<byte>, filters: Option<FilterSet>, t: nat)
    requires CollisionFree(p) && d.routingKeys == KeysOfPath(p, path)
    requires SlotOf(d) in st.current && st.current[SlotOf(d)] == d
    ensures Returned(st, RoutingKey(p, q), filters, t, d)
       <==> Split(q) <= Split(path) && Keeps(Visible(st.revoked, filters, t), d)
  {
    KeyNamesPrefix(p, path, q);
    hide Keeps, RoutingKey, Split, KeysOfPath, CollisionFree;
  }

  /** Publishing under a path makes an accepted descriptor discoverable at every level of it. */
  lemma PublishedIsDiscovered(
    p: Primitives, st: State, d: Descriptor, now: Clock, path: seq<byte>, q: seq<byte>,
    filters: Option<FilterSet>, t: nat)
    requires CollisionFree(p) && d.routingKeys == KeysOfPath(p, path)
    requires d.schemaHash != RevocationSchema(p) && Store(p, st, d, now).outcome.Ok?
    ensures Returned(Store(p, st, d, now).state, RoutingKey(p, q), filters, t, d)
       <==> Split(q) <= Split(path) && Keeps(Visible(st.revoked, filters, t), d)
  {
    hide Store, Keeps, RoutingKey, Split, CollisionFree, RevocationSchema, KeysOfPath;
    StoredIsReturned(p, st, d, now, RoutingKey(p, q), filters, t);
    KeyNamesPrefix(p, path, q);
  }
}

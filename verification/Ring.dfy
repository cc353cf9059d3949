/** The consistent-hash ring as it is stored: a table of virtual points and the
    sorted list of its keys. */
module Ring {
  import opened RingOrder

  datatype Lookup<+T> = EmptyRing | Found(value: T)

  type Key = nat

  class Ring {
    const virtualNodes: nat
    const point: (NodeId, nat) -> Point
    const place: Key -> Point
    var ring: map<Point, NodeId>
    var sortedKeys: seq<Point>
    var nodeIds: set<NodeId>

    constructor (count: nat, virtualPoint: (NodeId, nat) -> Point, placeOf: Key -> Point)
      requires count >= 1 && Injective(virtualPoint)
      ensures Valid() && nodeIds == {}
      ensures virtualNodes == count && point == virtualPoint && place == placeOf
    {
      virtualNodes, point, place := count, virtualPoint, placeOf;
      ring, sortedKeys, nodeIds := map[], [], {};
    }

    ghost predicate Valid()
      reads this
    {
      && virtualNodes >= 1 && Injective(point)
      && IsRing(point, virtualNodes, nodeIds, ring)
      && Sorted(sortedKeys) && Elems(sortedKeys) == ring.Keys
    }

    lemma EmptyIff()
      requires Valid()
      ensures nodeIds == {} <==> ring == map[]
      ensures nodeIds == {} <==> sortedKeys == []
    {
      if nodeIds != {} {
        var n :| n in nodeIds;
        assert point(n, 0) in ring;
      }
      if sortedKeys != [] { assert sortedKeys[0] in Elems(sortedKeys); }
    }

    method AddNode(n: NodeId)
      requires Valid()
      modifies this
      ensures Valid() && nodeIds == old(nodeIds) + {n}
      ensures Members(nodeIds, ring) == Changed(point, virtualNodes, old(Members(nodeIds, ring)), Joins(n))
      ensures n in old(nodeIds) ==> ring == old(ring) && sortedKeys == old(sortedKeys)
    {
      if n in nodeIds {
        assert nodeIds == nodeIds + {n};
        return;
      }
      nodeIds := nodeIds + {n};
      for i := 0 to virtualNodes
        invariant nodeIds == old(nodeIds) + {n}
        invariant ring.Keys == old(ring.Keys) + PointsOf(point, i, n)
        invariant forall p :: p in ring ==> ring[p] == if p in PointsOf(point, i, n) then n else old(ring)[p]
      {
        assert PointsOf(point, i + 1, n) == PointsOf(point, i, n) + {point(n, i)};
        ring := ring[point(n, i) := n];
      }
      assert ring == WithNode(point, virtualNodes, old(ring), n);
      RingAdds(point, virtualNodes, old(nodeIds), old(ring), n, ring);
      sortedKeys := SortKeys(ring.Keys);
    }

    method RemoveNode(n: NodeId)
      requires Valid()
      modifies this
      ensures Valid() && nodeIds == old(nodeIds) - {n}
      ensures Members(nodeIds, ring) == Changed(point, virtualNodes, old(Members(nodeIds, ring)), Leaves(n))
      ensures n !in old(nodeIds) ==> ring == old(ring) && sortedKeys == old(sortedKeys)
    {
      if n !in nodeIds {
        assert nodeIds == nodeIds - {n};
        return;
      }
      nodeIds := nodeIds - {n};
      for i := 0 to virtualNodes
        invariant nodeIds == old(nodeIds) - {n}
        invariant ring == old(ring) - PointsOf(point, i, n)
      {
        assert PointsOf(point, i + 1, n) == PointsOf(point, i, n) + {point(n, i)};
        ring := ring - {point(n, i)};
      }
      RingRemoves(point, virtualNodes, old(nodeIds), old(ring), n);
      sortedKeys := SortKeys(ring.Keys);
    }

    /** The walk from a lookup position, wrapping at the end of the list. */
    lemma WalkFrom(x: Point, idx: nat)
      requires Valid() && idx <= |sortedKeys|
      requires forall i :: 0 <= i < idx ==> sortedKeys[i] < x
      requires forall i :: idx <= i < |sortedKeys| ==> x <= sortedKeys[i]
      ensures sortedKeys[idx..] + sortedKeys[..idx] == WalkOf(ring.Keys, x)
    {
      SplitAtKey(sortedKeys, x, idx);
      var a, b := sortedKeys[idx..], sortedKeys[..idx];
      assert IsWalkSplit(ring.Keys, x, a + b, a, b);
      WalkOfFacts(ring.Keys, x);
      WalkIsUnique(ring.Keys, x, a + b, WalkOf(ring.Keys, x));
    }

    /** The owner of a key, or the empty-ring error. */
    method GetNode(key: Key) returns (r: Lookup<NodeId>)
      requires Valid()
      ensures r.EmptyRing? <==> nodeIds == {}
      ensures r.Found? ==> ring != map[] && r.value == OwnerOf(ring, place(key)) && r.value in nodeIds
    {
      EmptyIff();
      if sortedKeys == [] {
        return EmptyRing;
      }
      var idx := BisectLeft(sortedKeys, place(key));
      WalkFrom(place(key), idx);
      assert forall i :: 0 <= i < |sortedKeys| ==> sortedKeys[i] in Elems(sortedKeys);
      if idx < |sortedKeys| {
        return Found(ring[sortedKeys[idx]]);
      }
      return Found(ring[sortedKeys[0]]);
    }

    /** The first `n` distinct nodes met from the key's position. */
    method GetNodes(key: Key, n: int) returns (r: Lookup<seq<NodeId>>)
      requires Valid()
      ensures r.EmptyRing? <==> nodeIds == {}
      ensures r.Found? ==>
        && |r.value| == (if n <= 0 then 0 else if n < |nodeIds| then n else |nodeIds|)
        && r.value <= OrderOf(ring, place(key))
    {
      EmptyIff();
      if sortedKeys == [] {
        return EmptyRing;
      }
      if n <= 0 {
        return Found([]);
      }
      var x := place(key);
      OrderFacts(point, virtualNodes, nodeIds, ring, x);
      var start := BisectLeft(sortedKeys, x);
      WalkFrom(x, start);
      var ordered := sortedKeys[start..] + sortedKeys[..start];
      assert forall p :: p in ordered ==> p in Elems(ordered);
      var nodes := FirstDistinct(ring, ordered, n);
      return Found(nodes);
    }
  }

  /** First occurrences among the first `i` labels. */
  function DedupUpTo(labels: seq<NodeId>, i: nat): seq<NodeId>
    requires i <= |labels|
  {
    if i == 0 then []
    else DedupUpTo(labels, i - 1) + if labels[i - 1] in labels[..i - 1] then [] else [labels[i - 1]]
  }

  lemma {:induction false} DedupUpToIs(labels: seq<NodeId>, i: nat)
    requires i <= |labels|
    ensures DedupUpTo(labels, i) == Dedup(labels[..i])
  {
    if i > 0 {
      DedupUpToIs(labels, i - 1);
      assert labels[..i] == labels[..i - 1] + [labels[i - 1]];
      DedupSnoc(labels[..i - 1], labels[i - 1]);
    }
  }

  lemma {:induction false} DedupUpToGrows(labels: seq<NodeId>, i: nat, j: nat)
    requires i <= j <= |labels|
    ensures DedupUpTo(labels, i) <= DedupUpTo(labels, j)
    decreases j
  {
    if i < j {
      DedupUpToGrows(labels, i, j - 1);
    }
  }

  /** Walk the points, collecting nodes not seen before, until there are `n`. */
  method FirstDistinct(ring: map<Point, NodeId>, ordered: seq<Point>, n: nat) returns (nodes: seq<NodeId>)
    requires n >= 1 && forall p :: p in ordered ==> p in ring
    ensures var all := Dedup(Labels(ring, ordered));
      nodes <= all && |nodes| == if n < |all| then n else |all|
  {
    ghost var labels := Labels(ring, ordered);
    assert Dedup(labels) == DedupUpTo(labels, |labels|) by {
      DedupUpToIs(labels, |labels|);
      assert labels[..|labels|] == labels;
    }
    nodes := [];
    var seen: set<NodeId> := {};
    for i := 0 to |ordered|
      invariant nodes == DedupUpTo(labels, i) && |nodes| < n
      invariant forall m :: m in seen <==> m in labels[..i]
    {
      var node := ring[ordered[i]];
      assert labels[..i + 1] == labels[..i] + [node];
      if node !in seen {
        seen := seen + {node};
        nodes := nodes + [node];
        if |nodes| >= n {
          DedupUpToGrows(labels, i + 1, |labels|);
          return;
        }
      }
    }
  }
}

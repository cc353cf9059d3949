/** The consistent-hash ring as a set of points: who is next on the circle, in
    what order the nodes come, and what adding or removing a node changes. */
module RingOrder {

  type NodeId = nat
  type Point = nat

  // ------------------------------------------------- the ring of a set of nodes

  /** Virtual points never collide. */
  ghost predicate Injective(point: (NodeId, nat) -> Point) {
    forall m, n, i, j :: point(m, i) == point(n, j) ==> m == n && i == j
  }

  function PointsOf(point: (NodeId, nat) -> Point, count: nat, n: NodeId): set<Point> {
    set i: nat | i < count :: point(n, i)
  }

  /** `ring` is the table of exactly the points of these nodes. */
  ghost predicate IsRing(point: (NodeId, nat) -> Point, count: nat, ids: set<NodeId>, ring: map<Point, NodeId>) {
    && (forall n, i :: n in ids && 0 <= i < count ==> point(n, i) in ring && ring[point(n, i)] == n)
    && (forall p :: p in ring ==> ring[p] in ids && p in PointsOf(point, count, ring[p]))
  }

  /** A set of nodes has one ring. */
  lemma RingIsUnique(point: (NodeId, nat) -> Point, count: nat, ids: set<NodeId>, a: map<Point, NodeId>, b: map<Point, NodeId>)
    requires IsRing(point, count, ids, a) && IsRing(point, count, ids, b)
    ensures a == b
  {
    forall p | p in a ensures p in b && a[p] == b[p] {
      var i :| 0 <= i < count && point(a[p], i) == p;
    }
    forall p | p in b ensures p in a {
      var i :| 0 <= i < count && point(b[p], i) == p;
    }
  }

  lemma RingAdds(point: (NodeId, nat) -> Point, count: nat, ids: set<NodeId>, ring: map<Point, NodeId>, n: NodeId, ring': map<Point, NodeId>)
    requires Injective(point) && n !in ids
    requires IsRing(point, count, ids, ring)
    requires ring'.Keys == ring.Keys + PointsOf(point, count, n)
    requires forall p :: p in ring' ==> ring'[p] == if p in PointsOf(point, count, n) then n else ring[p]
    ensures IsRing(point, count, ids + {n}, ring')
    ensures ring.Keys !! PointsOf(point, count, n)
  {
  }

  lemma RingRemoves(point: (NodeId, nat) -> Point, count: nat, ids: set<NodeId>, ring: map<Point, NodeId>, n: NodeId)
    requires Injective(point)
    requires IsRing(point, count, ids, ring)
    ensures IsRing(point, count, ids - {n}, ring - PointsOf(point, count, n))
    ensures forall p :: p in ring ==> (p in PointsOf(point, count, n) <==> ring[p] == n)
  {
  }

  // ------------------------------------------------------- next on the circle

  /** `p` is the first point of `s` at or after `x`, going round the circle. */
  ghost predicate IsNext(s: set<Point>, x: Point, p: Point) {
    && p in s
    && if exists q :: q in s && x <= q then x <= p && forall q :: q in s && x <= q ==> p <= q
       else forall q :: q in s ==> p <= q
  }

  /** New points change who is next only to one of themselves. */
  lemma NextAfterAdd(s: set<Point>, t: set<Point>, x: Point, p: Point, q: Point)
    requires IsNext(s, x, p) && IsNext(s + t, x, q)
    ensures q == p || q in t
  {
  }

  // ---------------------------------------------------------- sorted key lists

  ghost predicate Sorted(s: seq<Point>) {
    forall i, j :: 0 <= i < j < |s| ==> s[i] < s[j]
  }

  ghost function Elems(s: seq<Point>): set<Point> {
    set p | p in s
  }

  /** A set has one sorted list. */
  lemma {:induction false} SortedIsUnique(a: seq<Point>, b: seq<Point>)
    requires Sorted(a) && Sorted(b) && Elems(a) == Elems(b)
    ensures a == b
  {
    assert a != [] ==> a[0] in Elems(a);
    assert b != [] ==> b[0] in Elems(b);
    if a != [] {
      var j :| 0 <= j < |b| && b[j] == a[0];
      var i :| 0 <= i < |a| && a[i] == b[0];
      assert a[0] == b[0];
      forall p ensures p in Elems(a[1..]) <==> p in Elems(b[1..]) {
        if p in a[1..] { assert p in Elems(a) && p != a[0]; assert p in b; }
        if p in b[1..] { assert p in Elems(b) && p != b[0]; assert p in a; }
      }
      SortedIsUnique(a[1..], b[1..]);
    }
  }

  /** The list with one more key in its place. */
  function InsertKey(s: seq<Point>, p: Point): seq<Point> {
    if s == [] || p < s[0] then [p] + s else [s[0]] + InsertKey(s[1..], p)
  }

  lemma {:induction false} InsertKeySorted(s: seq<Point>, p: Point)
    requires Sorted(s) && p !in s
    ensures Sorted(InsertKey(s, p)) && Elems(InsertKey(s, p)) == Elems(s) + {p}
  {
    if s != [] && !(p < s[0]) {
      InsertKeySorted(s[1..], p);
      var w := InsertKey(s[1..], p);
      forall i | 0 <= i < |w| ensures s[0] < w[i] {
        assert w[i] in Elems(w);
      }
      assert s == [s[0]] + s[1..];
      ElemsConcat([s[0]], w);
      ElemsConcat([s[0]], s[1..]);
    } else {
      ElemsConcat([p], s);
    }
  }

  method SortKeys(s: set<Point>) returns (keys: seq<Point>)
    ensures Sorted(keys) && Elems(keys) == s
  {
    keys := [];
    var todo := s;
    while todo != {}
      invariant todo <= s && Sorted(keys) && Elems(keys) == s - todo
      decreases todo
    {
      var p :| p in todo;
      todo := todo - {p};
      assert p !in keys by { assert p !in Elems(keys); }
      InsertKeySorted(keys, p);
      keys := InsertKey(keys, p);
    }
  }

  /** The position of the first key at or after `x`. */
  method BisectLeft(keys: seq<Point>, x: Point) returns (lo: nat)
    requires Sorted(keys)
    ensures lo <= |keys|
    ensures forall i :: 0 <= i < lo ==> keys[i] < x
    ensures forall i :: lo <= i < |keys| ==> x <= keys[i]
  {
    lo := 0;
    var hi := |keys|;
    while lo < hi
      invariant 0 <= lo <= hi <= |keys|
      invariant forall i :: 0 <= i < lo ==> keys[i] < x
      invariant forall i :: hi <= i < |keys| ==> x <= keys[i]
    {
      var mid := (lo + hi) / 2;
      if keys[mid] < x {
        lo := mid + 1;
      } else {
        hi := mid;
      }
    }
  }

  // ------------------------------------------------------- the order of nodes

  /** The points of `s` once round the circle, starting at `x`. */
  ghost predicate IsWalk(s: set<Point>, x: Point, w: seq<Point>) {
    exists a, b :: IsWalkSplit(s, x, w, a, b)
  }

  ghost predicate IsWalkSplit(s: set<Point>, x: Point, w: seq<Point>, a: seq<Point>, b: seq<Point>) {
    && w == a + b && Sorted(a) && Sorted(b)
    && Elems(a) == (set p | p in s && x <= p)
    && Elems(b) == (set p | p in s && p < x)
  }

  lemma WalkIsUnique(s: set<Point>, x: Point, v: seq<Point>, w: seq<Point>)
    requires IsWalk(s, x, v) && IsWalk(s, x, w)
    ensures v == w
  {
    var a, b :| IsWalkSplit(s, x, v, a, b);
    var c, d :| IsWalkSplit(s, x, w, c, d);
    SortedIsUnique(a, c);
    SortedIsUnique(b, d);
  }

  lemma ElemsConcat(a: seq<Point>, b: seq<Point>)
    ensures Elems(a + b) == Elems(a) + Elems(b)
  {
    forall p ensures p in Elems(a + b) <==> p in Elems(a) || p in Elems(b) {
      assert p in a + b <==> p in a || p in b;
    }
  }

  lemma FirstIsLeast(a: seq<Point>, q: Point)
    requires Sorted(a) && q in Elems(a)
    ensures a != [] && a[0] in Elems(a) && a[0] <= q
  {
    assert q in a && a[0] in a;
  }

  /** The walk starts with the next point, and meets every point. */
  lemma WalkStarts(s: set<Point>, x: Point, w: seq<Point>)
    requires IsWalk(s, x, w)
    ensures Elems(w) == s
    ensures s != {} ==> w != [] && IsNext(s, x, w[0])
  {
    var a, b :| IsWalkSplit(s, x, w, a, b);
    ElemsConcat(a, b);
    assert Elems(a) + Elems(b) == s;
    forall q | q in s ensures if x <= q then a != [] && a[0] in s && x <= a[0] <= q else b != [] && b[0] in s && b[0] <= q {
      if x <= q {
        FirstIsLeast(a, q);
      } else {
        FirstIsLeast(b, q);
      }
    }
    if s != {} {
      var p :| p in s;
      if a != [] {
        assert a[0] in Elems(a);
      }
    }
  }

  /** Sorted keys, cut at the first that is not below `x`. */
  lemma SplitAtKey(keys: seq<Point>, x: Point, idx: nat)
    requires Sorted(keys) && idx <= |keys|
    requires forall i :: 0 <= i < idx ==> keys[i] < x
    requires forall i :: idx <= i < |keys| ==> x <= keys[i]
    ensures Sorted(keys[idx..]) && Sorted(keys[..idx])
    ensures Elems(keys[idx..]) == (set p | p in Elems(keys) && x <= p)
    ensures Elems(keys[..idx]) == (set p | p in Elems(keys) && p < x)
  {
    var a, b := keys[idx..], keys[..idx];
    assert keys == b + a;
    ElemsConcat(b, a);
    assert forall p :: p in Elems(a) <==> p in a;
    assert forall p :: p in Elems(b) <==> p in b;
  }

  /** Keys outside `t`, in order. */
  function Outside(keys: seq<Point>, t: set<Point>): seq<Point> {
    if keys == [] then []
    else
      var last := keys[|keys| - 1];
      Outside(keys[..|keys| - 1], t) + if last in t then [] else [last]
  }

  lemma {:induction false} OutsideSorted(keys: seq<Point>, t: set<Point>)
    requires Sorted(keys)
    ensures Sorted(Outside(keys, t)) && Elems(Outside(keys, t)) == Elems(keys) - t
  {
    if keys != [] {
      var k := |keys| - 1;
      OutsideSorted(keys[..k], t);
      var w := Outside(keys[..k], t);
      assert keys == keys[..k] + [keys[k]];
      assert Elems(keys) == Elems(keys[..k]) + {keys[k]};
      forall i | 0 <= i < |w| ensures w[i] < keys[k] {
        assert w[i] in Elems(w);
      }
      assert Elems(w + [keys[k]]) == Elems(w) + {keys[k]};
      assert Elems(w + []) == Elems(w);
    }
  }

  lemma {:induction false} OutsideConcat(a: seq<Point>, b: seq<Point>, t: set<Point>)
    ensures Outside(a + b, t) == Outside(a, t) + Outside(b, t)
  {
    if b == [] {
      assert a + b == a;
    } else {
      var k := |b| - 1;
      assert (a + b)[..|a + b| - 1] == a + b[..k];
      OutsideConcat(a, b[..k], t);
    }
  }

  /** Leaving out points gives the walk of the points that remain. */
  lemma WalkOutside(s: set<Point>, t: set<Point>, x: Point, w: seq<Point>)
    requires IsWalk(s, x, w)
    ensures IsWalk(s - t, x, Outside(w, t))
  {
    var a, b :| IsWalkSplit(s, x, w, a, b);
    OutsideSorted(a, t);
    OutsideSorted(b, t);
    OutsideConcat(a, b, t);
    assert IsWalkSplit(s - t, x, Outside(w, t), Outside(a, t), Outside(b, t));
  }

  /** The nodes of a list of points. */
  function Labels(ring: map<Point, NodeId>, w: seq<Point>): seq<NodeId>
    requires forall p :: p in w ==> p in ring
  {
    seq(|w|, i requires 0 <= i < |w| => ring[w[i]])
  }

  /** First occurrences only. */
  function Dedup(s: seq<NodeId>): seq<NodeId> {
    if s == [] then []
    else
      var k := |s| - 1;
      Dedup(s[..k]) + if s[k] in s[..k] then [] else [s[k]]
  }

  function Erase(s: seq<NodeId>, n: NodeId): seq<NodeId> {
    if s == [] then []
    else
      var k := |s| - 1;
      Erase(s[..k], n) + if s[k] == n then [] else [s[k]]
  }

  ghost predicate Distinct(s: seq<NodeId>) {
    forall i, j :: 0 <= i < j < |s| ==> s[i] != s[j]
  }

  lemma EraseSnoc(s: seq<NodeId>, m: NodeId, n: NodeId)
    ensures Erase(s + [m], n) == if m == n then Erase(s, n) else Erase(s, n) + [m]
  {
    assert (s + [m])[..|s|] == s;
  }

  lemma DedupSnoc(s: seq<NodeId>, m: NodeId)
    ensures Dedup(s + [m]) == if m in s then Dedup(s) else Dedup(s) + [m]
  {
    assert (s + [m])[..|s|] == s;
  }

  lemma Rejoin(s: seq<NodeId>)
    requires s != []
    ensures s[..|s| - 1] + [s[|s| - 1]] == s
  {
  }

  lemma DedupFactsSnoc(s: seq<NodeId>, m: NodeId)
    requires Distinct(Dedup(s)) && (forall n :: n in Dedup(s) <==> n in s)
    requires s != [] ==> Dedup(s) != [] && Dedup(s)[0] == s[0]
    ensures Distinct(Dedup(s + [m])) && (forall n :: n in Dedup(s + [m]) <==> n in s + [m])
    ensures Dedup(s + [m]) != [] && Dedup(s + [m])[0] == (s + [m])[0]
  {
    DedupSnoc(s, m);
  }

  lemma {:induction false} DedupFacts(s: seq<NodeId>)
    ensures Distinct(Dedup(s))
    ensures forall n :: n in Dedup(s) <==> n in s
    ensures s != [] ==> Dedup(s) != [] && Dedup(s)[0] == s[0]
  {
    if s != [] {
      DedupFacts(s[..|s| - 1]);
      DedupFactsSnoc(s[..|s| - 1], s[|s| - 1]);
      Rejoin(s);
    }
  }

  lemma {:induction false} EraseMember(s: seq<NodeId>, n: NodeId, m: NodeId)
    ensures m in Erase(s, n) <==> m in s && m != n
  {
    if s != [] {
      var k := |s| - 1;
      EraseMember(s[..k], n, m);
      assert s == s[..k] + [s[k]];
    }
  }

  lemma EraseDedupSnoc(s: seq<NodeId>, m: NodeId, n: NodeId)
    requires Erase(Dedup(s), n) == Dedup(Erase(s, n))
    ensures Erase(Dedup(s + [m]), n) == Dedup(Erase(s + [m], n))
  {
    DedupSnoc(s, m);
    EraseSnoc(s, m, n);
    EraseSnoc(Dedup(s), m, n);
    DedupSnoc(Erase(s, n), m);
    EraseMember(s, n, m);
  }

  /** Erasing a node and keeping first occurrences can be done in either order. */
  lemma {:induction false} EraseDedup(s: seq<NodeId>, n: NodeId)
    ensures Erase(Dedup(s), n) == Dedup(Erase(s, n))
  {
    if s != [] {
      EraseDedup(s[..|s| - 1], n);
      EraseDedupSnoc(s[..|s| - 1], s[|s| - 1], n);
      Rejoin(s);
    }
  }

  /** Leaving out a node's points leaves out its labels. */
  lemma {:induction false} LabelsOutside(ring: map<Point, NodeId>, small: map<Point, NodeId>, t: set<Point>, n: NodeId, w: seq<Point>)
    requires forall p :: p in w ==> p in ring
    requires forall p :: p in ring ==> (p in t <==> ring[p] == n)
    requires forall p :: p in ring && p !in t ==> p in small && small[p] == ring[p]
    ensures forall p :: p in Outside(w, t) ==> p in small
    ensures Labels(small, Outside(w, t)) == Erase(Labels(ring, w), n)
  {
    if w != [] {
      var k := |w| - 1;
      assert w == w[..k] + [w[k]];
      LabelsOutside(ring, small, t, n, w[..k]);
      assert Labels(ring, w) == Labels(ring, w[..k]) + [ring[w[k]]];
      EraseSnoc(Labels(ring, w[..k]), ring[w[k]], n);
      var o := Outside(w[..k], t);
      if w[k] !in t {
        assert Labels(small, o + [w[k]]) == Labels(small, o) + [small[w[k]]];
      } else {
        assert o + [] == o;
      }
    }
  }

  /** Taking node `n`'s points out of a ring takes `n`, and nothing else, out of
      the order in which any lookup meets the nodes. */
  lemma OrderWithout(ring: map<Point, NodeId>, small: map<Point, NodeId>, t: set<Point>, n: NodeId, x: Point, w: seq<Point>, v: seq<Point>)
    requires forall p :: p in ring ==> (p in t <==> ring[p] == n)
    requires small == ring - t
    requires IsWalk(ring.Keys, x, w) && IsWalk(small.Keys, x, v)
    ensures forall p :: p in w ==> p in ring
    ensures forall p :: p in v ==> p in small
    ensures Dedup(Labels(small, v)) == Erase(Dedup(Labels(ring, w)), n)
  {
    WalkStarts(ring.Keys, x, w);
    WalkStarts(small.Keys, x, v);
    assert forall p :: p in w ==> p in Elems(w);
    assert forall p :: p in v ==> p in Elems(v);
    WalkOutside(ring.Keys, t, x, w);
    assert ring.Keys - t == small.Keys;
    WalkIsUnique(small.Keys, x, v, Outside(w, t));
    LabelsOutside(ring, small, t, n, w);
    EraseDedup(Labels(ring, w), n);
  }

  lemma {:induction false} DistinctSize(s: seq<NodeId>, ids: set<NodeId>)
    requires Distinct(s) && forall n :: n in s <==> n in ids
    ensures |s| == |ids|
  {
    if s != [] {
      var k := |s| - 1;
      assert s == s[..k] + [s[k]];
      DistinctSize(s[..k], ids - {s[k]});
    } else {
      assert ids == {};
    }
  }

  // --------------------------------------------- owner and order of a lookup

  lemma {:induction false} SortedExists(s: set<Point>) returns (keys: seq<Point>)
    ensures Sorted(keys) && Elems(keys) == s
    decreases s
  {
    if s == {} {
      keys := [];
    } else {
      var p :| p in s;
      keys := SortedExists(s - {p});
      assert p !in keys by { assert p !in Elems(keys); }
      InsertKeySorted(keys, p);
      keys := InsertKey(keys, p);
    }
  }

  lemma WalkExists(s: set<Point>, x: Point)
    ensures exists w :: IsWalk(s, x, w)
  {
    var a := SortedExists(set p | p in s && x <= p);
    var b := SortedExists(set p | p in s && p < x);
    assert IsWalkSplit(s, x, a + b, a, b);
    assert IsWalk(s, x, a + b);
  }

  ghost function WalkOf(s: set<Point>, x: Point): seq<Point> {
    WalkExists(s, x);
    var w :| IsWalk(s, x, w);
    w
  }

  lemma WalkOfFacts(s: set<Point>, x: Point)
    ensures IsWalk(s, x, WalkOf(s, x))
    ensures forall p :: p in WalkOf(s, x) <==> p in s
    ensures s != {} ==> WalkOf(s, x) != [] && IsNext(s, x, WalkOf(s, x)[0])
  {
    WalkExists(s, x);
    WalkStarts(s, x, WalkOf(s, x));
    assert forall p :: p in WalkOf(s, x) <==> p in Elems(WalkOf(s, x));
  }

  /** All nodes in the order a lookup at `x` meets them. */
  ghost function OrderOf(ring: map<Point, NodeId>, x: Point): seq<NodeId> {
    WalkOfFacts(ring.Keys, x);
    Dedup(Labels(ring, WalkOf(ring.Keys, x)))
  }

  /** The node responsible for `x`. */
  ghost function OwnerOf(ring: map<Point, NodeId>, x: Point): NodeId
    requires ring != map[]
  {
    WalkOfFacts(ring.Keys, x);
    ring[WalkOf(ring.Keys, x)[0]]
  }

  /** The order is duplicate-free, starts with the owner, and contains exactly
      the nodes of the ring. */
  lemma OrderFacts(point: (NodeId, nat) -> Point, count: nat, ids: set<NodeId>, ring: map<Point, NodeId>, x: Point)
    requires IsRing(point, count, ids, ring) && count >= 1
    ensures Distinct(OrderOf(ring, x))
    ensures forall n :: n in OrderOf(ring, x) <==> n in ids
    ensures |OrderOf(ring, x)| == |ids|
    ensures ids != {} ==> ring != map[] && OrderOf(ring, x) != [] && OrderOf(ring, x)[0] == OwnerOf(ring, x)
  {
    var w := WalkOf(ring.Keys, x);
    WalkOfFacts(ring.Keys, x);
    LabelsMembers(point, count, ids, ring, w);
    DedupFacts(Labels(ring, w));
    DistinctSize(OrderOf(ring, x), ids);
    if ids != {} {
      var n :| n in ids;
      assert point(n, 0) in ring;
    }
  }

  lemma LabelsMembers(point: (NodeId, nat) -> Point, count: nat, ids: set<NodeId>, ring: map<Point, NodeId>, w: seq<Point>)
    requires IsRing(point, count, ids, ring) && count >= 1
    requires forall p :: p in w <==> p in ring
    ensures forall n :: n in Labels(ring, w) <==> n in ids
  {
    var labels := Labels(ring, w);
    forall n | n in ids ensures n in labels {
      assert point(n, 0) in ring;
      var i :| 0 <= i < |w| && w[i] == point(n, 0);
      assert labels[i] == n;
    }
    forall n | n in labels ensures n in ids {
      var i :| 0 <= i < |labels| && labels[i] == n;
      assert w[i] in w;
    }
  }

  /** Adding a node changes an owner only to that node, and puts it into each
      lookup's order without moving anyone else. */
  lemma AddDisturbsLeast(point: (NodeId, nat) -> Point, count: nat, ids: set<NodeId>, ring: map<Point, NodeId>, n: NodeId, ring': map<Point, NodeId>, x: Point)
    requires Injective(point) && n !in ids && ring != map[]
    requires IsRing(point, count, ids, ring) && IsRing(point, count, ids + {n}, ring')
    ensures ring' != map[]
    ensures OwnerOf(ring', x) == OwnerOf(ring, x) || OwnerOf(ring', x) == n
    ensures Erase(OrderOf(ring', x), n) == OrderOf(ring, x)
  {
    var t := PointsOf(point, count, n);
    RingRemoves(point, count, ids + {n}, ring', n);
    assert ids + {n} - {n} == ids;
    RingIsUnique(point, count, ids, ring, ring' - t);
    assert ring.Keys <= ring'.Keys;
    WalkOfFacts(ring.Keys, x);
    WalkOfFacts(ring'.Keys, x);
    NextAfterAdd(ring.Keys, t * ring'.Keys, x, WalkOf(ring.Keys, x)[0], WalkOf(ring'.Keys, x)[0]) by {
      assert ring.Keys + t * ring'.Keys == ring'.Keys;
    }
    OrderWithout(ring', ring, t, n, x, WalkOf(ring'.Keys, x), WalkOf(ring.Keys, x));
  }

  /** Removing a node changes only the owners that were it, and takes it out of
      each lookup's order without moving anyone else. */
  lemma RemoveDisturbsLeast(point: (NodeId, nat) -> Point, count: nat, ids: set<NodeId>, ring: map<Point, NodeId>, n: NodeId, ring': map<Point, NodeId>, x: Point)
    requires Injective(point) && n in ids && ring' != map[]
    requires IsRing(point, count, ids, ring) && IsRing(point, count, ids - {n}, ring')
    ensures ring != map[]
    ensures OwnerOf(ring, x) != n ==> OwnerOf(ring', x) == OwnerOf(ring, x)
    ensures OrderOf(ring', x) == Erase(OrderOf(ring, x), n)
  {
    assert ids - {n} + {n} == ids;
    AddDisturbsLeast(point, count, ids - {n}, ring', n, ring, x);
  }

  // ------------------------------------------------------ the order by distance

  /** Going round the circle from `x`, `p` is met before `q`. */
  predicate MetBefore(x: Point, p: Point, q: Point) {
    if x <= p then p < q || q < x else p < q < x
  }

  /** A walk meets its points in order. */
  lemma WalkMeets(s: set<Point>, x: Point, w: seq<Point>, i: nat, j: nat)
    requires IsWalk(s, x, w) && i < j < |w|
    ensures MetBefore(x, w[i], w[j])
  {
    var a, b :| IsWalkSplit(s, x, w, a, b);
    WalkHalves(s, x, a, b);
    if i < |a| {
      assert w[i] == a[i];
    } else {
      assert w[i] == b[i - |a|] && w[j] == b[j - |a|];
    }
    if j >= |a| {
      assert w[j] == b[j - |a|];
    }
  }

  lemma WalkHalves(s: set<Point>, x: Point, a: seq<Point>, b: seq<Point>)
    requires IsWalkSplit(s, x, a + b, a, b)
    ensures forall i :: 0 <= i < |a| ==> x <= a[i]
    ensures forall i :: 0 <= i < |b| ==> b[i] < x
  {
    forall i | 0 <= i < |a| ensures x <= a[i] {
      assert a[i] in Elems(a);
    }
    forall i | 0 <= i < |b| ensures b[i] < x {
      assert b[i] in Elems(b);
    }
  }

  /** Of two labels, the one kept first occurs first. */
  lemma {:induction false} DedupByFirst(s: seq<NodeId>, i: nat, j: nat) returns (a: nat)
    requires i < j < |Dedup(s)|
    ensures a < |s| && s[a] == Dedup(s)[i] && Dedup(s)[j] !in s[..a + 1]
  {
    var k := |s| - 1;
    var init := s[..k];
    DedupFacts(s);
    if j < |Dedup(init)| {
      a := DedupByFirst(init, i, j);
      assert s[..a + 1] == init[..a + 1];
    } else {
      DedupFacts(init);
      assert Dedup(init)[i] in Dedup(init);
      a :| 0 <= a < |init| && init[a] == Dedup(init)[i];
      assert forall n :: n in s[..a + 1] ==> n in init;
    }
  }

  /** The lookup order is the order of the nodes' nearest points: a node that comes earlier
      has a point that is met before every point of one that comes later. */
  lemma OrderIsByDistance(ring: map<Point, NodeId>, x: Point, i: nat, j: nat) returns (p: Point)
    requires i < j < |OrderOf(ring, x)|
    ensures p in ring && ring[p] == OrderOf(ring, x)[i]
    ensures forall q :: q in ring && ring[q] == OrderOf(ring, x)[j] ==> MetBefore(x, p, q)
  {
    WalkOfFacts(ring.Keys, x);
    var w := WalkOf(ring.Keys, x);
    var labels := Labels(ring, w);
    var a := DedupByFirst(labels, i, j);
    p := w[a];
    forall q | q in ring && ring[q] == OrderOf(ring, x)[j] ensures MetBefore(x, p, q) {
      var b :| 0 <= b < |w| && w[b] == q;
      assert labels[b] == ring[q] && forall c :: 0 <= c <= a ==> labels[..a + 1][c] == labels[c];
      assert a < b;
      WalkMeets(ring.Keys, x, w, a, b);
    }
  }

  // --------------------------------------------------------------- any history

  /** The table after a node joined, which enters its points. */
  function WithNode(point: (NodeId, nat) -> Point, count: nat, ring: map<Point, NodeId>, n: NodeId): map<Point, NodeId> {
    map p | p in ring.Keys + PointsOf(point, count, n) :: if p in PointsOf(point, count, n) then n else ring[p]
  }

  /** The table after a node left, which takes out its points. */
  function WithoutNode(point: (NodeId, nat) -> Point, count: nat, ring: map<Point, NodeId>, n: NodeId): map<Point, NodeId> {
    ring - PointsOf(point, count, n)
  }

  datatype Change = Joins(node: NodeId) | Leaves(node: NodeId)

  datatype Members = Members(ids: set<NodeId>, ring: map<Point, NodeId>)

  /** One call; a node that is there does not join, one that is not does not leave. */
  function Changed(point: (NodeId, nat) -> Point, count: nat, m: Members, c: Change): Members {
    match c
    case Joins(n) => if n in m.ids then m else Members(m.ids + {n}, WithNode(point, count, m.ring, n))
    case Leaves(n) => if n !in m.ids then m else Members(m.ids - {n}, WithoutNode(point, count, m.ring, n))
  }

  function After(point: (NodeId, nat) -> Point, count: nat, m: Members, changes: seq<Change>): Members {
    if changes == [] then m
    else Changed(point, count, After(point, count, m, changes[..|changes| - 1]), changes[|changes| - 1])
  }

  lemma {:induction false} AfterIsRing(point: (NodeId, nat) -> Point, count: nat, m: Members, changes: seq<Change>)
    requires Injective(point) && IsRing(point, count, m.ids, m.ring)
    ensures var d := After(point, count, m, changes); IsRing(point, count, d.ids, d.ring)
  {
    if changes != [] {
      var init, c := changes[..|changes| - 1], changes[|changes| - 1];
      AfterIsRing(point, count, m, init);
      var d := After(point, count, m, init);
      match c
      case Joins(n) =>
        if n !in d.ids {
          RingAdds(point, count, d.ids, d.ring, n, WithNode(point, count, d.ring, n));
        }
      case Leaves(n) => RingRemoves(point, count, d.ids, d.ring, n);
    }
  }

  /** The table depends on who is there and not on how that came about: after any two
      histories that leave the same nodes, it is the same. */
  lemma SameNodesSameRing(point: (NodeId, nat) -> Point, count: nat, m: Members, one: seq<Change>, other: seq<Change>)
    requires Injective(point) && IsRing(point, count, m.ids, m.ring)
    requires After(point, count, m, one).ids == After(point, count, m, other).ids
    ensures After(point, count, m, one) == After(point, count, m, other)
  {
    AfterIsRing(point, count, m, one);
    AfterIsRing(point, count, m, other);
    var a, b := After(point, count, m, one), After(point, count, m, other);
    RingIsUnique(point, count, a.ids, a.ring, b.ring);
  }

  /** A node that joins and leaves again restores the ring, and so does one that leaves
      and joins again. */
  lemma AddRemoveRestores(point: (NodeId, nat) -> Point, count: nat, m: Members, n: NodeId)
    requires Injective(point) && IsRing(point, count, m.ids, m.ring)
    ensures n !in m.ids ==> After(point, count, m, [Joins(n), Leaves(n)]) == m
    ensures n in m.ids ==> After(point, count, m, [Leaves(n), Joins(n)]) == m
  {
    var there, back := [Joins(n), Leaves(n)], [Leaves(n), Joins(n)];
    assert there[..1] == [Joins(n)] && back[..1] == [Leaves(n)];
    assert [Joins(n)][..0] == [] && [Leaves(n)][..0] == [];
    if n !in m.ids {
      assert m.ids + {n} - {n} == m.ids;
      SameNodesSameRing(point, count, m, there, []);
    } else {
      assert m.ids - {n} + {n} == m.ids;
      SameNodesSameRing(point, count, m, back, []);
    }
  }
}

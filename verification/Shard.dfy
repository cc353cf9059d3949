/** Shard ownership cached over the hash ring. */
module Shard {
  import opened RingOrder
  import opened R = Ring

  /** One moved shard: its key, its old and its new primary. */
  datatype Migration = Migration(key: Key, from: NodeId, to: NodeId)

  function AtLeastZero(n: int): nat {
    if n < 0 then 0 else n
  }

  function Rest(nodes: seq<NodeId>): set<NodeId> {
    set i | 1 <= i < |nodes| :: nodes[i]
  }

  lemma {:induction false} RestSize(nodes: seq<NodeId>)
    ensures |Rest(nodes)| <= AtLeastZero(|nodes| - 1)
  {
    if |nodes| <= 1 {
      assert Rest(nodes) == {};
    } else {
      var k := |nodes| - 1;
      RestSize(nodes[..k]);
      assert Rest(nodes) == Rest(nodes[..k]) + {nodes[k]};
    }
  }

  /** The first `k` of `s`, or all of it. */
  function Prefix(s: seq<NodeId>, k: int): seq<NodeId> {
    if k <= 0 then [] else if k < |s| then s[..k] else s
  }

  function NodesOf(s: seq<NodeId>): set<NodeId> {
    set n | n in s
  }

  /** The replicas of a key: the first `replicaCount + 1` nodes of its lookup order,
      without its owner. */
  ghost function ReplicasOf(ring: map<Point, NodeId>, x: Point, replicaCount: int): set<NodeId> {
    if ring == map[] then {}
    else NodesOf(Prefix(OrderOf(ring, x), replicaCount + 1)) - {OwnerOf(ring, x)}
  }

  lemma RestIsReplicas(point: (NodeId, nat) -> Point, count: nat, ids: set<NodeId>, ring: map<Point, NodeId>, x: Point,
      replicaCount: int, nodes: seq<NodeId>)
    requires IsRing(point, count, ids, ring) && count >= 1 && ids != {}
    requires nodes == Prefix(OrderOf(ring, x), replicaCount + 1)
    ensures Rest(nodes) == ReplicasOf(ring, x, replicaCount)
  {
    OrderFacts(point, count, ids, ring, x);
    assert forall i :: 0 <= i < |nodes| ==> nodes[i] == OrderOf(ring, x)[i];
  }

  lemma ReplicasAreFew(point: (NodeId, nat) -> Point, count: nat, ids: set<NodeId>, ring: map<Point, NodeId>, x: Point, replicaCount: int)
    requires IsRing(point, count, ids, ring) && count >= 1 && ids != {}
    ensures ring != map[] && OwnerOf(ring, x) !in ReplicasOf(ring, x, replicaCount)
    ensures |ReplicasOf(ring, x, replicaCount)| <= AtLeastZero(replicaCount)
    ensures ReplicasOf(ring, x, replicaCount) <= ids
  {
    var nodes := Prefix(OrderOf(ring, x), replicaCount + 1);
    RestIsReplicas(point, count, ids, ring, x, replicaCount, nodes);
    RestSize(nodes);
    OrderFacts(point, count, ids, ring, x);
  }

  /** Erasing a node changes the first `k` exactly when it is among them. */
  lemma {:induction false} EraseBeyond(s: seq<NodeId>, n: NodeId, k: int)
    ensures n !in Prefix(s, k) ==> Prefix(Erase(s, n), k) == Prefix(s, k)
  {
    if s != [] {
      var init, last := s[..|s| - 1], s[|s| - 1];
      assert s == init + [last];
      EraseBeyond(init, n, k);
      EraseSnoc(init, last, n);
      ErasedLength(init, n, k);
    }
  }

  lemma {:induction false} ErasedLength(s: seq<NodeId>, n: NodeId, k: int)
    ensures k <= |s| && n !in Prefix(s, k) ==> k <= |Erase(s, n)|
  {
    if s != [] && k < |s| {
      ErasedLength(s[..|s| - 1], n, k);
    } else if s != [] && n !in s {
      ErasedLength(s[..|s| - 1], n, k - 1);
    }
  }

  /** When the owner stays, the replicas stay the same exactly when the node that is
      erased from the order is not among its first `replicaCount + 1`. */
  lemma SameReplicasIff(big: map<Point, NodeId>, small: map<Point, NodeId>, x: Point, n: NodeId, replicaCount: int)
    requires big != map[] && small != map[]
    requires OwnerOf(big, x) == OwnerOf(small, x) != n
    requires OrderOf(small, x) == Erase(OrderOf(big, x), n)
    ensures ReplicasOf(small, x, replicaCount) == ReplicasOf(big, x, replicaCount)
      <==> n !in Prefix(OrderOf(big, x), replicaCount + 1)
  {
    EraseBeyond(OrderOf(big, x), n, replicaCount + 1);
    EraseMember(OrderOf(big, x), n, n);
    if n in Prefix(OrderOf(big, x), replicaCount + 1) {
      assert n in ReplicasOf(big, x, replicaCount) && n !in ReplicasOf(small, x, replicaCount);
    }
  }

  lemma SingleOrder(point: (NodeId, nat) -> Point, count: nat, ids: set<NodeId>, ring: map<Point, NodeId>, n: NodeId)
    requires IsRing(point, count, ids, ring) && count >= 1 && n in ids
    ensures ring != map[] && OwnerOf(ring, point(n, 0)) == n
  {
    var x := point(n, 0);
    OrderFacts(point, count, ids, ring, x);
    WalkOfFacts(ring.Keys, x);
    assert x in ring && IsNext(ring.Keys, x, x);
  }

  /** One replica asked for, one node `a` on the ring, and `b` joins: the keys at a point
      of `a` keep their owner and had no replica, and should have `b`.  Read the other
      way, `b` leaves and stays cached as the replica. */
  lemma ReplicasGoStale(point: (NodeId, nat) -> Point, count: nat, a: NodeId, b: NodeId, small: map<Point, NodeId>, big: map<Point, NodeId>)
    requires Injective(point) && count >= 1 && a != b
    requires IsRing(point, count, {a}, small) && IsRing(point, count, {a, b}, big)
    ensures small != map[] && big != map[]
    ensures var x := point(a, 0);
      && OwnerOf(small, x) == OwnerOf(big, x) == a
      && ReplicasOf(small, x, 1) == {} && ReplicasOf(big, x, 1) == {b}
  {
    var x := point(a, 0);
    SingleOrder(point, count, {a}, small, a);
    SingleOrder(point, count, {a, b}, big, a);
    OrderFacts(point, count, {a}, small, x);
    OrderFacts(point, count, {a, b}, big, x);
    assert Prefix(OrderOf(big, x), 2) == OrderOf(big, x);
  }

  /** The migrations are exactly the entries that differ, each once. */
  ghost predicate ExactlyChanges(before: map<Key, NodeId>, after: map<Key, NodeId>, ms: seq<Migration>) {
    && (forall i, j :: 0 <= i < j < |ms| ==> ms[i].key != ms[j].key)
    && (forall m :: m in ms ==>
          && m.key in before && m.key in after
          && before[m.key] == m.from && after[m.key] == m.to && m.from != m.to)
    && (forall h :: h in before && h in after && before[h] != after[h] ==> Migration(h, before[h], after[h]) in ms)
  }

  lemma OneMoreChange(before: map<Key, NodeId>, after: map<Key, NodeId>, ms: seq<Migration>, h: Key, to: NodeId)
    requires ExactlyChanges(before, after, ms)
    requires h in before && h in after && after[h] == before[h] != to
    ensures ExactlyChanges(before, after[h := to], ms + [Migration(h, before[h], to)])
  {
    assert forall m :: m in ms ==> m.key != h;
    assert forall i :: 0 <= i < |ms| ==> ms[i] in ms;
    var ms' := ms + [Migration(h, before[h], to)];
    assert ms'[|ms|] in ms';
    assert forall m :: m in ms ==> m in ms';
  }

  /** Entries are paired, and no primary is among its own replicas. */
  ghost predicate Paired(primaries: map<Key, NodeId>, replicas: map<Key, set<NodeId>>, replicaCount: int) {
    && replicas.Keys == primaries.Keys
    && forall h :: h in primaries ==>
      primaries[h] !in replicas[h] && |replicas[h]| <= AtLeastZero(replicaCount)
  }

  /** Each cached primary is the ring's owner. */
  ghost predicate Fresh(ring: map<Point, NodeId>, place: Key -> Point, primaries: map<Key, NodeId>) {
    && (primaries != map[] ==> ring != map[])
    && forall h :: h in primaries ==> ring != map[] && primaries[h] == OwnerOf(ring, place(h))
  }

  /** The replicas cached for `h` are those the ring gives it. */
  ghost predicate UpToDate(ring: map<Point, NodeId>, place: Key -> Point, replicaCount: int, replicas: map<Key, set<NodeId>>, h: Key) {
    h in replicas && replicas[h] == ReplicasOf(ring, place(h), replicaCount)
  }

  /** Replicas are the ring's where the primary changed, and as before elsewhere. */
  ghost predicate ReplicasFollow(ring: map<Point, NodeId>, place: Key -> Point, replicaCount: int,
      primaries0: map<Key, NodeId>, replicas0: map<Key, set<NodeId>>,
      primaries: map<Key, NodeId>, replicas: map<Key, set<NodeId>>)
  {
    && primaries.Keys == primaries0.Keys
    && (forall h :: h in primaries && primaries[h] == primaries0[h] ==>
          (h in replicas <==> h in replicas0) && (h in replicas ==> replicas[h] == replicas0[h]))
    && (forall h :: h in primaries && primaries[h] != primaries0[h] ==>
          h in replicas && replicas[h] == ReplicasOf(ring, place(h), replicaCount))
  }

  /** The two tables of cached entries. */
  datatype Tables = Tables(primaries: map<Key, NodeId>, replicas: map<Key, set<NodeId>>)

  /** Whether rebalancing gives `h` a new primary, once it has come to it. */
  ghost predicate Moves(ring: map<Point, NodeId>, place: Key -> Point, primaries: map<Key, NodeId>, done: set<Key>, h: Key)
    requires ring != map[]
  {
    h in done && h in primaries && primaries[h] != OwnerOf(ring, place(h))
  }

  ghost function RefreshedPrimaries(ring: map<Point, NodeId>, place: Key -> Point, t: Tables, done: set<Key>): map<Key, NodeId>
    requires ring != map[]
  {
    map h | h in t.primaries :: if Moves(ring, place, t.primaries, done, h) then OwnerOf(ring, place(h)) else t.primaries[h]
  }

  ghost function RefreshedReplicas(ring: map<Point, NodeId>, place: Key -> Point, replicaCount: int, t: Tables, done: set<Key>): map<Key, set<NodeId>>
    requires ring != map[]
  {
    t.replicas + NewReplicas(ring, place, replicaCount, t, done)
  }

  /** The replicas of the entries that moved. */
  ghost function NewReplicas(ring: map<Point, NodeId>, place: Key -> Point, replicaCount: int, t: Tables, done: set<Key>): map<Key, set<NodeId>>
    requires ring != map[]
  {
    map h | h in t.primaries && Moves(ring, place, t.primaries, done, h) :: ReplicasOf(ring, place(h), replicaCount)
  }

  /** The tables once rebalancing has come to the entries `done`. */
  ghost function Refreshed(ring: map<Point, NodeId>, place: Key -> Point, replicaCount: int, t: Tables, done: set<Key>): Tables
    requires ring != map[]
  {
    Tables(RefreshedPrimaries(ring, place, t, done), RefreshedReplicas(ring, place, replicaCount, t, done))
  }

  lemma MovesOneMore(ring: map<Point, NodeId>, place: Key -> Point, t: Tables, done: set<Key>, h: Key)
    requires ring != map[] && h in t.primaries
    ensures forall k :: k != h ==> (Moves(ring, place, t.primaries, done + {h}, k) <==> Moves(ring, place, t.primaries, done, k))
    ensures Moves(ring, place, t.primaries, done + {h}, h) <==> OwnerOf(ring, place(h)) != t.primaries[h]
  {
  }

  lemma RefreshPrimary(ring: map<Point, NodeId>, place: Key -> Point, t: Tables, done: set<Key>, h: Key)
    requires ring != map[] && h in t.primaries && h !in done
    ensures var u, owner := RefreshedPrimaries(ring, place, t, done), OwnerOf(ring, place(h));
      && h in u && u[h] == t.primaries[h]
      && RefreshedPrimaries(ring, place, t, done + {h}) == if owner == u[h] then u else u[h := owner]
  {
    MovesOneMore(ring, place, t, done, h);
  }

  lemma NewReplicasOneMore(ring: map<Point, NodeId>, place: Key -> Point, replicaCount: int, t: Tables, done: set<Key>, h: Key)
    requires ring != map[] && h in t.primaries && h !in done
    ensures var u := NewReplicas(ring, place, replicaCount, t, done);
      NewReplicas(ring, place, replicaCount, t, done + {h}) ==
      if OwnerOf(ring, place(h)) == t.primaries[h] then u else u[h := ReplicasOf(ring, place(h), replicaCount)]
  {
    MovesOneMore(ring, place, t, done, h);
  }

  lemma UnionUpdate(a: map<Key, set<NodeId>>, b: map<Key, set<NodeId>>, h: Key, r: set<NodeId>)
    ensures a + b[h := r] == (a + b)[h := r]
  {
  }

  lemma RefreshReplicas(ring: map<Point, NodeId>, place: Key -> Point, replicaCount: int, t: Tables, done: set<Key>, h: Key)
    requires ring != map[] && h in t.primaries && h !in done
    ensures var u := RefreshedReplicas(ring, place, replicaCount, t, done);
      RefreshedReplicas(ring, place, replicaCount, t, done + {h}) ==
      if OwnerOf(ring, place(h)) == t.primaries[h] then u else u[h := ReplicasOf(ring, place(h), replicaCount)]
  {
    NewReplicasOneMore(ring, place, replicaCount, t, done, h);
    UnionUpdate(t.replicas, NewReplicas(ring, place, replicaCount, t, done), h, ReplicasOf(ring, place(h), replicaCount));
  }

  lemma RefreshOne(ring: map<Point, NodeId>, place: Key -> Point, replicaCount: int, t: Tables, done: set<Key>, h: Key)
    requires ring != map[] && h in t.primaries && h !in done
    ensures var u, owner := Refreshed(ring, place, replicaCount, t, done), OwnerOf(ring, place(h));
      && h in u.primaries && u.primaries[h] == t.primaries[h]
      && Refreshed(ring, place, replicaCount, t, done + {h}) ==
         if owner == u.primaries[h] then u
         else Tables(u.primaries[h := owner], u.replicas[h := ReplicasOf(ring, place(h), replicaCount)])
  {
    RefreshPrimary(ring, place, t, done, h);
    RefreshReplicas(ring, place, replicaCount, t, done, h);
  }

  lemma RefreshNone(ring: map<Point, NodeId>, place: Key -> Point, replicaCount: int, t: Tables)
    requires ring != map[]
    ensures Refreshed(ring, place, replicaCount, t, {}) == t
  {
    var u := Refreshed(ring, place, replicaCount, t, {});
    assert u.primaries == t.primaries && u.replicas == t.replicas;
  }

  /** Rebalancing has come to the entries `done`, and `ms` lists what changed. */
  ghost predicate SoFar(ring: map<Point, NodeId>, place: Key -> Point, replicaCount: int, start: Tables, done: set<Key>, t: Tables, ms: seq<Migration>)
    requires ring != map[]
  {
    && t == Refreshed(ring, place, replicaCount, start, done)
    && ExactlyChanges(start.primaries, t.primaries, ms)
  }

  lemma SoFarStep(ring: map<Point, NodeId>, place: Key -> Point, replicaCount: int, start: Tables, done: set<Key>, t: Tables, ms: seq<Migration>, h: Key)
    requires ring != map[] && SoFar(ring, place, replicaCount, start, done, t, ms)
    requires h in start.primaries && h !in done
    ensures h in t.primaries
    ensures var owner := OwnerOf(ring, place(h));
      if owner == t.primaries[h] then SoFar(ring, place, replicaCount, start, done + {h}, t, ms)
      else SoFar(ring, place, replicaCount, start, done + {h},
             Tables(t.primaries[h := owner], t.replicas[h := ReplicasOf(ring, place(h), replicaCount)]),
             ms + [Migration(h, t.primaries[h], owner)])
  {
    RefreshOne(ring, place, replicaCount, start, done, h);
    if OwnerOf(ring, place(h)) != t.primaries[h] {
      OneMoreChange(start.primaries, t.primaries, ms, h, OwnerOf(ring, place(h)));
    }
  }

  /** The tables and the migrations listed so far. */
  datatype Progress = Progress(tables: Tables, ms: seq<Migration>)

  ghost function Turn(ring: map<Point, NodeId>, place: Key -> Point, replicaCount: int, p: Progress, h: Key): Progress
    requires ring != map[]
  {
    var t, owner := p.tables, OwnerOf(ring, place(h));
    if h in t.primaries && owner != t.primaries[h] then
      Progress(Tables(t.primaries[h := owner], t.replicas[h := ReplicasOf(ring, place(h), replicaCount)]),
        p.ms + [Migration(h, t.primaries[h], owner)])
    else p
  }

  /** Rebalancing after these entries, in the order it came to them. */
  ghost function Turns(ring: map<Point, NodeId>, place: Key -> Point, replicaCount: int, start: Tables, visited: seq<Key>): Progress
    requires ring != map[]
  {
    if visited == [] then Progress(start, [])
    else Turn(ring, place, replicaCount, Turns(ring, place, replicaCount, start, visited[..|visited| - 1]), visited[|visited| - 1])
  }

  function KeysOf(visited: seq<Key>): set<Key> {
    if visited == [] then {} else KeysOf(visited[..|visited| - 1]) + {visited[|visited| - 1]}
  }

  /** No entry is visited twice. */
  ghost predicate Once(visited: seq<Key>) {
    if visited == [] then true
    else Once(visited[..|visited| - 1]) && visited[|visited| - 1] !in KeysOf(visited[..|visited| - 1])
  }

  lemma VisitedSnoc(ring: map<Point, NodeId>, place: Key -> Point, replicaCount: int, start: Tables, visited: seq<Key>, h: Key)
    requires ring != map[] && Once(visited) && h !in KeysOf(visited)
    ensures Once(visited + [h]) && KeysOf(visited + [h]) == KeysOf(visited) + {h}
    ensures Turns(ring, place, replicaCount, start, visited + [h])
      == Turn(ring, place, replicaCount, Turns(ring, place, replicaCount, start, visited), h)
  {
    assert (visited + [h])[..|visited|] == visited;
  }

  /** The order does not matter to the tables, and every change is listed. */
  lemma {:induction false} TurnsRefresh(ring: map<Point, NodeId>, place: Key -> Point, replicaCount: int, start: Tables, visited: seq<Key>)
    requires ring != map[] && Once(visited) && KeysOf(visited) <= start.primaries.Keys
    ensures var p := Turns(ring, place, replicaCount, start, visited);
      SoFar(ring, place, replicaCount, start, KeysOf(visited), p.tables, p.ms)
  {
    if visited == [] {
      RefreshNone(ring, place, replicaCount, start);
    } else {
      var init, h := visited[..|visited| - 1], visited[|visited| - 1];
      TurnsRefresh(ring, place, replicaCount, start, init);
      var p := Turns(ring, place, replicaCount, start, init);
      SoFarStep(ring, place, replicaCount, start, KeysOf(init), p.tables, p.ms, h);
    }
  }

  /** One entry once rebalancing has come to all. */
  lemma RefreshedAt(ring: map<Point, NodeId>, place: Key -> Point, replicaCount: int, t: Tables, h: Key)
    requires ring != map[]
    ensures var u, owner := Refreshed(ring, place, replicaCount, t, t.primaries.Keys), OwnerOf(ring, place(h));
      && (h in u.primaries <==> h in t.primaries)
      && (h in t.primaries ==> u.primaries[h] == owner)
      && (if h in t.primaries && t.primaries[h] != owner then h in u.replicas && u.replicas[h] == ReplicasOf(ring, place(h), replicaCount)
          else (h in u.replicas <==> h in t.replicas) && (h in u.replicas ==> u.replicas[h] == t.replicas[h]))
  {
  }

  /** Coming to every entry makes every primary the ring's owner, and gives those that
      moved the ring's replicas. */
  lemma RefreshAll(ring: map<Point, NodeId>, place: Key -> Point, replicaCount: int, t: Tables)
    requires ring != map[]
    ensures var u := Refreshed(ring, place, replicaCount, t, t.primaries.Keys);
      && Fresh(ring, place, u.primaries)
      && ReplicasFollow(ring, place, replicaCount, t.primaries, t.replicas, u.primaries, u.replicas)
  {
    forall h {
      RefreshedAt(ring, place, replicaCount, t, h);
    }
  }

  /** It keeps paired tables paired. */
  lemma RefreshKeepsPaired(point: (NodeId, nat) -> Point, count: nat, ids: set<NodeId>, ring: map<Point, NodeId>, place: Key -> Point, replicaCount: int,
      t: Tables, u: Tables)
    requires IsRing(point, count, ids, ring) && count >= 1 && ids != {} && ring != map[]
    requires Fresh(ring, place, u.primaries) && ReplicasFollow(ring, place, replicaCount, t.primaries, t.replicas, u.primaries, u.replicas)
    requires u.replicas.Keys == u.primaries.Keys && Paired(t.primaries, t.replicas, replicaCount)
    ensures Paired(u.primaries, u.replicas, replicaCount)
  {
    forall h | h in u.primaries ensures u.primaries[h] !in u.replicas[h] && |u.replicas[h]| <= AtLeastZero(replicaCount) {
      ReplicasAreFew(point, count, ids, ring, place(h), replicaCount);
    }
  }

  lemma RefreshedKeys(ring: map<Point, NodeId>, place: Key -> Point, replicaCount: int, t: Tables)
    requires ring != map[] && t.replicas.Keys == t.primaries.Keys
    ensures var u := Refreshed(ring, place, replicaCount, t, t.primaries.Keys); u.replicas.Keys == u.primaries.Keys
  {
    var u := Refreshed(ring, place, replicaCount, t, t.primaries.Keys);
    forall h ensures h in u.replicas.Keys <==> h in u.primaries.Keys {
      RefreshedAt(ring, place, replicaCount, t, h);
    }
  }

  /** The tables after the primary of `h` was handed over: the new one is listed, and the
      new node is added to the replicas the entry has. */
  function Migrated(t: Tables, h: Key, leaving: NodeId, to: NodeId): Tables {
    Tables(t.primaries[h := to],
      if h in t.replicas then t.replicas[h := t.replicas[h] - {leaving} + if to != leaving then {to} else {}] else t.replicas)
  }

  /** That no primary is among its own replicas does not survive it, unless the entry was
      there and stays where it was. */
  lemma MigrationStaysPairedIff(t: Tables, replicaCount: int, h: Key, leaving: NodeId, to: NodeId)
    requires Paired(t.primaries, t.replicas, replicaCount)
    ensures var u := Migrated(t, h, leaving, to);
      Paired(u.primaries, u.replicas, replicaCount) <==> h in t.primaries && to == leaving
  {
    var u := Migrated(t, h, leaving, to);
    if h in t.primaries {
      assert u.replicas[h] == t.replicas[h] - {leaving} + if to != leaving then {to} else {};
      Fewer(t.replicas[h] - {leaving}, t.replicas[h]);
    } else {
      assert h in u.primaries && h !in u.replicas;
    }
  }

  lemma {:induction false} Fewer(a: set<NodeId>, b: set<NodeId>)
    requires a <= b
    ensures |a| <= |b|
  {
    assert b == a + (b - a);
  }

  /** A migrated entry that lists its new primary as a replica goes on doing so through
      every rebalancing that leaves its primary. */
  lemma MigratedListsItself(ring: map<Point, NodeId>, place: Key -> Point, replicaCount: int, t: Tables, h: Key, leaving: NodeId, to: NodeId)
    requires ring != map[] && h in t.replicas && to != leaving && OwnerOf(ring, place(h)) == to
    ensures var u := Migrated(t, h, leaving, to);
      var v := Refreshed(ring, place, replicaCount, u, u.primaries.Keys);
      h in v.primaries && v.primaries[h] == to && h in v.replicas && to in v.replicas[h]
  {
    var u := Migrated(t, h, leaving, to);
    assert !Moves(ring, place, u.primaries, u.primaries.Keys, h);
  }

  /** A key that `n` neither gains nor loses, between a ring with `n` and one without. */
  ghost predicate KeepsReplicasIff(big: map<Point, NodeId>, small: map<Point, NodeId>, x: Point, n: NodeId, replicaCount: int) {
    ReplicasOf(small, x, replicaCount) == ReplicasOf(big, x, replicaCount) <==> n !in Prefix(OrderOf(big, x), replicaCount + 1)
  }

  lemma JoinKeepsReplicasIff(point: (NodeId, nat) -> Point, count: nat, ids: set<NodeId>, ring: map<Point, NodeId>, n: NodeId,
      ring': map<Point, NodeId>, x: Point, replicaCount: int)
    requires Injective(point) && count >= 1 && n !in ids && ring != map[] && ring' != map[]
    requires IsRing(point, count, ids, ring) && IsRing(point, count, ids + {n}, ring')
    requires OwnerOf(ring', x) == OwnerOf(ring, x)
    ensures KeepsReplicasIff(ring', ring, x, n, replicaCount)
  {
    AddDisturbsLeast(point, count, ids, ring, n, ring', x);
    OrderFacts(point, count, ids, ring, x);
    SameReplicasIff(ring', ring, x, n, replicaCount);
  }

  lemma LeaveKeepsReplicasIff(point: (NodeId, nat) -> Point, count: nat, ids: set<NodeId>, ring: map<Point, NodeId>, n: NodeId,
      ring': map<Point, NodeId>, x: Point, replicaCount: int)
    requires Injective(point) && count >= 1 && ring != map[] && ring' != map[]
    requires IsRing(point, count, ids, ring) && IsRing(point, count, ids - {n}, ring')
    requires OwnerOf(ring', x) == OwnerOf(ring, x)
    ensures KeepsReplicasIff(ring, ring', x, n, replicaCount)
  {
    if n in ids {
      RemoveDisturbsLeast(point, count, ids, ring, n, ring', x);
      OrderFacts(point, count, ids - {n}, ring', x);
      SameReplicasIff(ring, ring', x, n, replicaCount);
    } else {
      assert ids - {n} == ids;
      OrderFacts(point, count, ids, ring, x);
      RingIsUnique(point, count, ids, ring, ring');
    }
  }

  /** What a change of the ring does to cached replicas that were right and whose
      primary stays: they stay right exactly when `n` is not among the key's nodes on the
      ring that has it. */
  ghost predicate StayRightIff(ring: map<Point, NodeId>, ring': map<Point, NodeId>, big: map<Point, NodeId>, place: Key -> Point, n: NodeId, replicaCount: int,
      primaries0: map<Key, NodeId>, replicas0: map<Key, set<NodeId>>,
      primaries: map<Key, NodeId>, replicas: map<Key, set<NodeId>>)
  {
    forall h :: h in primaries && h in primaries0 && primaries[h] == primaries0[h] && UpToDate(ring, place, replicaCount, replicas0, h) ==>
      (UpToDate(ring', place, replicaCount, replicas, h) <==> n !in Prefix(OrderOf(big, place(h)), replicaCount + 1))
  }

  lemma JoinStaysRightIff(point: (NodeId, nat) -> Point, count: nat, ids: set<NodeId>, ring: map<Point, NodeId>, n: NodeId,
      ring': map<Point, NodeId>, place: Key -> Point, replicaCount: int,
      primaries0: map<Key, NodeId>, replicas0: map<Key, set<NodeId>>,
      primaries: map<Key, NodeId>, replicas: map<Key, set<NodeId>>)
    requires Injective(point) && count >= 1 && n !in ids
    requires IsRing(point, count, ids, ring) && IsRing(point, count, ids + {n}, ring')
    requires Fresh(ring, place, primaries0) && Fresh(ring', place, primaries)
    requires ReplicasFollow(ring', place, replicaCount, primaries0, replicas0, primaries, replicas)
    ensures StayRightIff(ring, ring', ring', place, n, replicaCount, primaries0, replicas0, primaries, replicas)
  {
    forall h | h in primaries && h in primaries0 && primaries[h] == primaries0[h] && UpToDate(ring, place, replicaCount, replicas0, h)
      ensures UpToDate(ring', place, replicaCount, replicas, h) <==> n !in Prefix(OrderOf(ring', place(h)), replicaCount + 1)
    {
      JoinKeepsReplicasIff(point, count, ids, ring, n, ring', place(h), replicaCount);
    }
  }

  lemma LeaveStaysRightIff(point: (NodeId, nat) -> Point, count: nat, ids: set<NodeId>, ring: map<Point, NodeId>, n: NodeId,
      ring': map<Point, NodeId>, place: Key -> Point, replicaCount: int,
      primaries0: map<Key, NodeId>, replicas0: map<Key, set<NodeId>>,
      primaries: map<Key, NodeId>, replicas: map<Key, set<NodeId>>)
    requires Injective(point) && count >= 1
    requires IsRing(point, count, ids, ring) && IsRing(point, count, ids - {n}, ring')
    requires Fresh(ring, place, primaries0) && Fresh(ring', place, primaries)
    requires ReplicasFollow(ring', place, replicaCount, primaries0, replicas0, primaries, replicas)
    ensures StayRightIff(ring, ring', ring, place, n, replicaCount, primaries0, replicas0, primaries, replicas)
  {
    forall h | h in primaries && h in primaries0 && primaries[h] == primaries0[h] && UpToDate(ring, place, replicaCount, replicas0, h)
      ensures UpToDate(ring', place, replicaCount, replicas, h) <==> n !in Prefix(OrderOf(ring, place(h)), replicaCount + 1)
    {
      LeaveKeepsReplicasIff(point, count, ids, ring, n, ring', place(h), replicaCount);
    }
  }

  lemma JoinMovesToJoiner(point: (NodeId, nat) -> Point, count: nat, ids: set<NodeId>, ring: map<Point, NodeId>, n: NodeId,
      ring': map<Point, NodeId>, place: Key -> Point, before: map<Key, NodeId>, after: map<Key, NodeId>, ms: seq<Migration>)
    requires Injective(point) && count >= 1 && n !in ids
    requires IsRing(point, count, ids, ring) && IsRing(point, count, ids + {n}, ring')
    requires Fresh(ring, place, before) && Fresh(ring', place, after) && ExactlyChanges(before, after, ms)
    ensures forall m :: m in ms ==> m.to == n
  {
    forall m | m in ms ensures m.to == n {
      AddDisturbsLeast(point, count, ids, ring, n, ring', place(m.key));
    }
  }

  lemma LeaveMovesFromLeaver(point: (NodeId, nat) -> Point, count: nat, ids: set<NodeId>, ring: map<Point, NodeId>, n: NodeId,
      ring': map<Point, NodeId>, place: Key -> Point, before: map<Key, NodeId>, after: map<Key, NodeId>, ms: seq<Migration>)
    requires Injective(point) && count >= 1
    requires IsRing(point, count, ids, ring) && IsRing(point, count, ids - {n}, ring')
    requires Fresh(ring, place, before) && Fresh(ring', place, after) && ExactlyChanges(before, after, ms)
    ensures forall m :: m in ms ==> m.from == n
  {
    forall m | m in ms ensures m.from == n {
      if n in ids {
        RemoveDisturbsLeast(point, count, ids, ring, n, ring', place(m.key));
      } else {
        assert ids - {n} == ids;
        RingIsUnique(point, count, ids, ring, ring');
      }
    }
  }

  class Shard {
    const hashRing: R.Ring
    const replicaCount: int
    var primaryMap: map<Key, NodeId>
    var replicaMap: map<Key, set<NodeId>>

    constructor (ring: R.Ring, replicas: int)
      requires ring.Valid()
      ensures Valid() && hashRing == ring && replicaCount == replicas
      ensures primaryMap == map[] && replicaMap == map[]
    {
      hashRing, replicaCount := ring, replicas;
      primaryMap, replicaMap := map[], map[];
    }

    /** What every run of add, remove and assign keeps while the ring has nodes. */
    ghost predicate Valid()
      reads this, hashRing
    {
      hashRing.Valid() && IsFresh() && IsPaired()
    }

    ghost predicate IsFresh()
      reads this, hashRing
    {
      Fresh(hashRing.ring, hashRing.place, primaryMap)
    }

    ghost predicate IsPaired()
      reads this
    {
      Paired(primaryMap, replicaMap, replicaCount)
    }

    /** Look up primary and replicas of `h`: the next nodes round the ring. */
    method Resolve(h: Key) returns (r: Lookup<(NodeId, set<NodeId>)>)
      requires hashRing.Valid()
      ensures r.EmptyRing? <==> hashRing.nodeIds == {}
      ensures r.Found? ==>
        && hashRing.ring != map[] && r.value.0 == OwnerOf(hashRing.ring, hashRing.place(h))
        && r.value.1 == ReplicasOf(hashRing.ring, hashRing.place(h), replicaCount)
        && r.value.0 !in r.value.1 && |r.value.1| <= AtLeastZero(replicaCount)
        && r.value.1 <= hashRing.nodeIds
    {
      var primary := hashRing.GetNode(h);
      if primary.EmptyRing? {
        return EmptyRing;
      }
      var nodes := hashRing.GetNodes(h, replicaCount + 1);
      var order := nodes.value;
      ghost var full := OrderOf(hashRing.ring, hashRing.place(h));
      OrderFacts(hashRing.point, hashRing.virtualNodes, hashRing.nodeIds, hashRing.ring, hashRing.place(h));
      assert order == Prefix(full, replicaCount + 1);
      ReplicasAreFew(hashRing.point, hashRing.virtualNodes, hashRing.nodeIds, hashRing.ring, hashRing.place(h), replicaCount);
      RestIsReplicas(hashRing.point, hashRing.virtualNodes, hashRing.nodeIds, hashRing.ring, hashRing.place(h), replicaCount, order);
      return Found((primary.value, Rest(order)));
    }

    /** The primary of a key: the remembered one, or resolved now and remembered together
        with the replicas the ring gives it. */
    method AssignShard(h: Key) returns (r: Lookup<NodeId>)
      requires hashRing.Valid()
      modifies this
      ensures r.EmptyRing? <==> h !in old(primaryMap) && hashRing.nodeIds == {}
      ensures r.EmptyRing? || h in old(primaryMap) ==> primaryMap == old(primaryMap) && replicaMap == old(replicaMap)
      ensures r.Found? ==> h in primaryMap && r.value == primaryMap[h]
      ensures r.Found? && h !in old(primaryMap) ==>
        && hashRing.ring != map[] && primaryMap == old(primaryMap)[h := OwnerOf(hashRing.ring, hashRing.place(h))]
        && replicaMap == old(replicaMap)[h := ReplicasOf(hashRing.ring, hashRing.place(h), replicaCount)]
      ensures (old(IsFresh()) ==> IsFresh()) && (old(IsPaired()) ==> IsPaired())
    {
      if h in primaryMap {
        return Found(primaryMap[h]);
      }
      var found := Resolve(h);
      if found.EmptyRing? {
        return EmptyRing;
      }
      primaryMap := primaryMap[h := found.value.0];
      replicaMap := replicaMap[h := found.value.1];
      return Found(found.value.0);
    }

    /** The remembered replicas of a key, none if it has none. */
    method GetReplicas(h: Key) returns (r: Lookup<set<NodeId>>)
      requires hashRing.Valid()
      modifies this
      ensures r.EmptyRing? <==> h !in old(primaryMap) && hashRing.nodeIds == {}
      ensures r.Found? ==>
        r.value == if h !in old(primaryMap) then ReplicasOf(hashRing.ring, hashRing.place(h), replicaCount)
                   else if h in old(replicaMap) then old(replicaMap)[h] else {}
      ensures (old(IsFresh()) ==> IsFresh()) && (old(IsPaired()) ==> IsPaired())
      ensures r.Found? && old(IsPaired()) ==> h in primaryMap && primaryMap[h] !in r.value && |r.value| <= AtLeastZero(replicaCount)
    {
      var primary := AssignShard(h);
      if primary.EmptyRing? {
        return EmptyRing;
      }
      return Found(if h in replicaMap then replicaMap[h] else {});
    }

    /** Record that the primary of `h` moved from one node to another. */
    method MigratePrimary(h: Key, leaving: NodeId, to: NodeId)
      modifies this
      ensures Tables(primaryMap, replicaMap) == Migrated(Tables(old(primaryMap), old(replicaMap)), h, leaving, to)
    {
      if h in replicaMap {
        var replicas := replicaMap[h];
        if leaving in replicas {
          replicas := replicas - {leaving};
        }
        if to !in replicas && to != leaving {
          replicas := replicas + {to};
        }
        assert replicas == replicaMap[h] - {leaving} + if to != leaving then {to} else {};
        replicaMap := replicaMap[h := replicas];
      }
      primaryMap := primaryMap[h := to];
    }

    /** Bring one cached entry up to date. */
    method RefreshEntry(h: Key, ms: seq<Migration>) returns (r: Lookup<seq<Migration>>)
      requires hashRing.Valid() && h in primaryMap
      modifies this
      ensures r.EmptyRing? <==> hashRing.nodeIds == {}
      ensures r.EmptyRing? ==> primaryMap == old(primaryMap) && replicaMap == old(replicaMap)
      ensures r.Found? ==>
        && hashRing.ring != map[]
        && Progress(Tables(primaryMap, replicaMap), r.value)
           == Turn(hashRing.ring, hashRing.place, replicaCount, Progress(Tables(old(primaryMap), old(replicaMap)), ms), h)
    {
      var found := Resolve(h);
      if found.EmptyRing? {
        return EmptyRing;
      }
      if found.value.0 == primaryMap[h] {
        return Found(ms);
      }
      r := Found(ms + [Migration(h, primaryMap[h], found.value.0)]);
      primaryMap := primaryMap[h := found.value.0];
      replicaMap := replicaMap[h := found.value.1];
    }

    /** The loop over the cached entries, in some order. */
    method RefreshEntries() returns (r: Lookup<seq<Migration>>, ghost visited: seq<Key>)
      requires hashRing.Valid()
      modifies this
      ensures r.EmptyRing? <==> hashRing.nodeIds == {} && old(primaryMap) != map[]
      ensures hashRing.nodeIds == {} ==> primaryMap == old(primaryMap) && replicaMap == old(replicaMap) && (r.Found? ==> r.value == [])
      ensures hashRing.nodeIds != {} ==>
        && Once(visited) && KeysOf(visited) == old(primaryMap.Keys) && hashRing.ring != map[]
        && Progress(Tables(primaryMap, replicaMap), r.value)
           == Turns(hashRing.ring, hashRing.place, replicaCount, Tables(old(primaryMap), old(replicaMap)), visited)
    {
      var ms: seq<Migration> := [];
      var todo := primaryMap.Keys;
      visited := [];
      ghost var start := Tables(primaryMap, replicaMap);
      hashRing.EmptyIff();
      while todo != {}
        invariant todo !! KeysOf(visited) && todo + KeysOf(visited) == start.primaries.Keys == primaryMap.Keys
        invariant Once(visited)
        invariant hashRing.ring == map[] ==> visited == []
        invariant Progress(Tables(primaryMap, replicaMap), ms) ==
          if hashRing.ring == map[] then Progress(start, [])
          else Turns(hashRing.ring, hashRing.place, replicaCount, start, visited)
        decreases todo
      {
        var h :| h in todo;
        var found := RefreshEntry(h, ms);
        if found.EmptyRing? {
          return EmptyRing, [];
        }
        VisitedSnoc(hashRing.ring, hashRing.place, replicaCount, start, visited, h);
        ms := found.value;
        todo := todo - {h};
        visited := visited + [h];
      }
      return Found(ms), visited;
    }

    /** Bring every cached entry up to date.  The result lists exactly the entries
        that changed; with an empty ring and anything cached it fails and leaves
        the tables alone. */
    method Rebalance() returns (r: Lookup<seq<Migration>>)
      requires hashRing.Valid()
      modifies this
      ensures primaryMap.Keys == old(primaryMap.Keys)
      ensures r.EmptyRing? <==> hashRing.nodeIds == {} && old(primaryMap) != map[]
      ensures r.EmptyRing? ==> primaryMap == old(primaryMap) && replicaMap == old(replicaMap)
      ensures r.Found? ==> IsFresh() && ExactlyChanges(old(primaryMap), primaryMap, r.value)
      ensures r.Found? ==>
        ReplicasFollow(hashRing.ring, hashRing.place, replicaCount, old(primaryMap), old(replicaMap), primaryMap, replicaMap)
      ensures old(IsPaired()) ==> IsPaired()
    {
      ghost var start := Tables(primaryMap, replicaMap);
      ghost var visited;
      r, visited := RefreshEntries();
      hashRing.EmptyIff();
      if hashRing.ring != map[] {
        TurnsRefresh(hashRing.ring, hashRing.place, replicaCount, start, visited);
        RefreshAll(hashRing.ring, hashRing.place, replicaCount, start);
        if Paired(start.primaries, start.replicas, replicaCount) {
          RefreshedKeys(hashRing.ring, hashRing.place, replicaCount, start);
          RefreshKeepsPaired(hashRing.point, hashRing.virtualNodes, hashRing.nodeIds, hashRing.ring, hashRing.place, replicaCount,
            start, Tables(primaryMap, replicaMap));
        }
      }
    }

    /** A joining node takes over shards; nothing moves between other nodes.  Replicas
        are brought up to date where the primary changes.  Where it does not, they stay
        right exactly when the joiner is not among the key's nodes. */
    method AddNode(n: NodeId) returns (moved: seq<Migration>)
      requires hashRing.Valid()
      modifies this, hashRing
      ensures hashRing.Valid() && hashRing.nodeIds == old(hashRing.nodeIds) + {n}
      ensures IsFresh() && (old(IsPaired()) ==> IsPaired())
      ensures primaryMap.Keys == old(primaryMap.Keys) && ExactlyChanges(old(primaryMap), primaryMap, moved)
      ensures ReplicasFollow(hashRing.ring, hashRing.place, replicaCount, old(primaryMap), old(replicaMap), primaryMap, replicaMap)
      ensures old(IsFresh()) ==> forall m :: m in moved ==> m.to == n
      ensures old(IsFresh()) && n !in old(hashRing.nodeIds) ==>
        StayRightIff(old(hashRing.ring), hashRing.ring, hashRing.ring, hashRing.place, n, replicaCount,
          old(primaryMap), old(replicaMap), primaryMap, replicaMap)
    {
      ghost var was := old(IsFresh());
      hashRing.AddNode(n);
      var r := Rebalance();
      moved := r.value;
      if was && n !in old(hashRing.nodeIds) {
        JoinMovesToJoiner(hashRing.point, hashRing.virtualNodes, old(hashRing.nodeIds), old(hashRing.ring), n, hashRing.ring,
          hashRing.place, old(primaryMap), primaryMap, moved);
        JoinStaysRightIff(hashRing.point, hashRing.virtualNodes, old(hashRing.nodeIds), old(hashRing.ring), n, hashRing.ring,
          hashRing.place, replicaCount, old(primaryMap), old(replicaMap), primaryMap, replicaMap);
      }
    }

    /** A leaving node's shards move away; nothing moves between other nodes.
        Removing the last node while anything is cached fails after the ring has
        changed. */
    method RemoveNode(n: NodeId) returns (r: Lookup<seq<Migration>>)
      requires hashRing.Valid()
      modifies this, hashRing
      ensures hashRing.Valid() && hashRing.nodeIds == old(hashRing.nodeIds) - {n}
      ensures r.EmptyRing? <==> hashRing.nodeIds == {} && old(primaryMap) != map[]
      ensures r.EmptyRing? ==> primaryMap == old(primaryMap) && replicaMap == old(replicaMap)
      ensures r.Found? ==>
        && IsFresh() && primaryMap.Keys == old(primaryMap.Keys)
        && ExactlyChanges(old(primaryMap), primaryMap, r.value)
        && ReplicasFollow(hashRing.ring, hashRing.place, replicaCount, old(primaryMap), old(replicaMap), primaryMap, replicaMap)
      ensures r.Found? && old(IsFresh()) ==>
        && (forall m :: m in r.value ==> m.from == n)
        && StayRightIff(old(hashRing.ring), hashRing.ring, old(hashRing.ring), hashRing.place, n, replicaCount,
             old(primaryMap), old(replicaMap), primaryMap, replicaMap)
      ensures old(IsPaired()) ==> IsPaired()
    {
      ghost var was := old(IsFresh());
      hashRing.RemoveNode(n);
      r := Rebalance();
      if was && r.Found? {
        LeaveMovesFromLeaver(hashRing.point, hashRing.virtualNodes, old(hashRing.nodeIds), old(hashRing.ring), n, hashRing.ring,
          hashRing.place, old(primaryMap), primaryMap, r.value);
        LeaveStaysRightIff(hashRing.point, hashRing.virtualNodes, old(hashRing.nodeIds), old(hashRing.ring), n, hashRing.ring,
          hashRing.place, replicaCount, old(primaryMap), old(replicaMap), primaryMap, replicaMap);
      }
    }
  }
}

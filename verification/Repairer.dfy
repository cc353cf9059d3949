/** The repair pass as it is carried out, request by request. */
module Repairer {
  import opened Fragments
  import opened R = Repair

  class RemotePeer {
    var inventory: Inventory

    /** Store what the peer lacks; what it holds it keeps. */
    method Receive(h: Hash, version: nat)
      modifies this
      ensures inventory == if h in old(inventory) then old(inventory) else old(inventory)[h := version]
    {
      if h !in inventory {
        inventory := inventory[h := version];
      }
    }
  }

  /** The peer after the pushes of `hs` that take effect. */
  function After(inv: Inventory, hs: set<Hash>, local: Inventory): Inventory {
    map h | h in inv.Keys + (hs * local.Keys) :: if h in inv then inv[h] else if h in local then local[h] else 0
  }

  function Absent(hashes: set<Hash>, inv: Inventory): set<Hash> {
    set h | h in hashes && h !in inv
  }

  /** The same weather for a pass that is stopped outside these buckets. */
  function Only(w: Weather, buckets: set<nat>): Weather {
    w.(reached := w.reached * buckets)
  }

  lemma OnlySkip(w: Weather, buckets: set<nat>, b: nat)
    requires b !in w.reached
    ensures Only(w, buckets + {b}) == Only(w, buckets)
  {
    assert w.reached * (buckets + {b}) == w.reached * buckets;
  }

  /** What one bucket comes to: hashes found missing, hashes failed, and the
      table of verified buckets. */
  datatype Outcome<D> = Outcome(missing: set<Hash>, failed: set<Hash>, table: map<nat, (D, D)>)

  function BucketOutcome<D(==)>(s: Scheme<D>, inv: Inventory, b: nat, mine: Inventory, remote: D, table: map<nat, (D, D)>, w: Weather): Outcome<D> {
    var state := (remote, s.fold(mine));
    if b in table && table[b] == state then Outcome({}, {}, table)
    else if b !in w.answering then Outcome({}, mine.Keys, table)
    else
      var missing := Missing(Bucket(s.bucketOf, inv, b), mine);
      var failed := set h | h in missing && h !in w.gone && (h in w.refused || h in w.unconfirmed);
      Outcome(missing, failed, if missing == {} then table[b := state] else if failed == {} then table - {b} else table)
  }

  // ------------------------------------------------ the pass, bucket by bucket

  lemma BucketOfReceived<D>(s: Scheme<D>, seen: Inventory, inv: Inventory, expected: Inventory, verified: map<nat, (D, D)>, w: Weather, b: nat)
    requires b !in w.reached
    ensures Bucket(s.bucketOf, Received(s, seen, inv, expected, verified, w), b) == Bucket(s.bucketOf, inv, b)
  {
  }

  lemma MissingOfBucket(bucketOf: Hash -> nat, inv: Inventory, expected: Inventory, b: nat)
    ensures Missing(Bucket(bucketOf, inv, b), Bucket(bucketOf, expected, b))
      == set h | h in Missing(inv, expected) && bucketOf(h) == b
  {
    forall h | h in expected && bucketOf(h) == b
      ensures VersionHeld(Bucket(bucketOf, inv, b), h) == VersionHeld(inv, h)
    {
    }
  }

  predicate Skips<D(==)>(s: Scheme<D>, seen: Inventory, expected: Inventory, verified: map<nat, (D, D)>, b: nat) {
    b in verified && verified[b] == StateOf(s, seen, expected, b)
  }

  /** What taking bucket `b` next adds to the hashes found missing. */
  function FoundIn<D(==)>(s: Scheme<D>, seen: Inventory, inv: Inventory, expected: Inventory, verified: map<nat, (D, D)>, w: Weather, b: nat): set<Hash> {
    if Skips(s, seen, expected, verified, b) || b !in w.answering then {}
    else set h | h in Missing(inv, expected) && s.bucketOf(h) == b
  }

  lemma MorePaged<D>(s: Scheme<D>, seen: Inventory, expected: Inventory, verified: map<nat, (D, D)>, w: Weather, done: set<nat>, b: nat)
    requires b in Buckets(s.bucketOf, expected) && b in w.reached && b !in done
    ensures Paged(s, seen, expected, verified, Only(w, done + {b}))
      == Paged(s, seen, expected, verified, Only(w, done)) + (if Skips(s, seen, expected, verified, b) then {} else {b})
    ensures b !in Paged(s, seen, expected, verified, Only(w, done))
  {
  }

  lemma MoreAttempted<D>(s: Scheme<D>, seen: Inventory, inv: Inventory, expected: Inventory, verified: map<nat, (D, D)>, w: Weather, done: set<nat>, b: nat)
    requires b in Buckets(s.bucketOf, expected) && b in w.reached && b !in done
    ensures Attempted(s, seen, inv, expected, verified, Only(w, done + {b}))
      == Attempted(s, seen, inv, expected, verified, Only(w, done)) + (FoundIn(s, seen, inv, expected, verified, w, b) - w.gone)
    ensures forall h :: h in Attempted(s, seen, inv, expected, verified, Only(w, done)) ==> s.bucketOf(h) != b
  {
    MorePaged(s, seen, expected, verified, w, done, b);
  }

  /** The outcome of a bucket, in terms of the pass so far. */
  lemma OutcomeInPass<D>(s: Scheme<D>, seen: Inventory, inv: Inventory, expected: Inventory, verified: map<nat, (D, D)>, w: Weather, done: set<nat>, b: nat)
    requires b in Buckets(s.bucketOf, expected) && b in w.reached && b !in done
    ensures var w1 := Only(w, done);
      var inv1, table1 := Received(s, seen, inv, expected, verified, w1), Reverified(s, seen, inv, expected, verified, w1);
      var r := BucketOutcome(s, inv1, b, Bucket(s.bucketOf, expected, b), s.fold(Bucket(s.bucketOf, seen, b)), table1, w);
      && (Skips(s, seen, expected, verified, b) <==> b in table1 && table1[b] == StateOf(s, seen, expected, b))
      && r.missing == FoundIn(s, seen, inv, expected, verified, w, b)
  {
    MorePaged(s, seen, expected, verified, w, done, b);
    BucketOfReceived(s, seen, inv, expected, verified, Only(w, done), b);
    MissingOfBucket(s.bucketOf, inv, expected, b);
  }

  lemma MoreReceived<D>(s: Scheme<D>, seen: Inventory, inv: Inventory, expected: Inventory, verified: map<nat, (D, D)>, w: Weather, done: set<nat>, b: nat)
    requires b in Buckets(s.bucketOf, expected) && b in w.reached && b !in done
    ensures Received(s, seen, inv, expected, verified, Only(w, done + {b}))
      == After(Received(s, seen, inv, expected, verified, Only(w, done)),
               FoundIn(s, seen, inv, expected, verified, w, b) - w.gone - w.refused, Bucket(s.bucketOf, expected, b))
  {
    MoreAttempted(s, seen, inv, expected, verified, w, done, b);
  }

  lemma MoreFailed<D>(s: Scheme<D>, seen: Inventory, inv: Inventory, expected: Inventory, verified: map<nat, (D, D)>, w: Weather, done: set<nat>, b: nat)
    requires b in Buckets(s.bucketOf, expected) && b in w.reached && b !in done
    ensures var w1 := Only(w, done);
      var inv1, table1 := Received(s, seen, inv, expected, verified, w1), Reverified(s, seen, inv, expected, verified, w1);
      var r := BucketOutcome(s, inv1, b, Bucket(s.bucketOf, expected, b), s.fold(Bucket(s.bucketOf, seen, b)), table1, w);
      Failed(s, seen, inv, expected, verified, Only(w, done + {b})) == Failed(s, seen, inv, expected, verified, w1) + r.failed
  {
    MorePaged(s, seen, expected, verified, w, done, b);
    MoreAttempted(s, seen, inv, expected, verified, w, done, b);
    OutcomeInPass(s, seen, inv, expected, verified, w, done, b);
  }

  /** Other buckets are remembered as before. */
  lemma OthersRemembered<D>(s: Scheme<D>, seen: Inventory, inv: Inventory, expected: Inventory, verified: map<nat, (D, D)>, w: Weather, done: set<nat>, b: nat, c: nat)
    requires b in Buckets(s.bucketOf, expected) && b in w.reached && b !in done && c != b
    ensures Remembered(s, seen, inv, expected, verified, Only(w, done + {b}), c)
         == Remembered(s, seen, inv, expected, verified, Only(w, done), c)
  {
    MorePaged(s, seen, expected, verified, w, done, b);
    MoreAttempted(s, seen, inv, expected, verified, w, done, b);
    var f1 := PushFailures(s, seen, inv, expected, verified, Only(w, done));
    var f2 := PushFailures(s, seen, inv, expected, verified, Only(w, done + {b}));
    assert forall h :: s.bucketOf(h) == c ==> (h in f1 <==> h in f2);
  }

  lemma ThisRemembered<D>(s: Scheme<D>, seen: Inventory, inv: Inventory, expected: Inventory, verified: map<nat, (D, D)>, w: Weather, done: set<nat>, b: nat)
    requires b in Buckets(s.bucketOf, expected) && b in w.reached && b !in done
    ensures var w1 := Only(w, done);
      var inv1, table1 := Received(s, seen, inv, expected, verified, w1), Reverified(s, seen, inv, expected, verified, w1);
      var r := BucketOutcome(s, inv1, b, Bucket(s.bucketOf, expected, b), s.fold(Bucket(s.bucketOf, seen, b)), table1, w);
      Remembered(s, seen, inv, expected, verified, Only(w, done + {b}), b) == Lookup(r.table, b)
  {
    var w2 := Only(w, done + {b});
    MorePaged(s, seen, expected, verified, w, done, b);
    MoreAttempted(s, seen, inv, expected, verified, w, done, b);
    OutcomeInPass(s, seen, inv, expected, verified, w, done, b);
    ReverifiedLookup(s, seen, inv, expected, verified, Only(w, done), b);
    var found := FoundIn(s, seen, inv, expected, verified, w, b);
    assert b in Paged(s, seen, expected, verified, w2) && b in w.answering ==>
      (AnyIn(s.bucketOf, Missing(inv, expected), b) <==> found != {});
    assert b in Paged(s, seen, expected, verified, w2) && b in w.answering ==>
      (AnyIn(s.bucketOf, PushFailures(s, seen, inv, expected, verified, w2), b)
       <==> exists h :: h in found && h !in w.gone && (h in w.refused || h in w.unconfirmed));
  }

  lemma MoreVerified<D>(s: Scheme<D>, seen: Inventory, inv: Inventory, expected: Inventory, verified: map<nat, (D, D)>, w: Weather, done: set<nat>, b: nat)
    requires b in Buckets(s.bucketOf, expected) && b in w.reached && b !in done
    ensures var w1 := Only(w, done);
      var inv1, table1 := Received(s, seen, inv, expected, verified, w1), Reverified(s, seen, inv, expected, verified, w1);
      var r := BucketOutcome(s, inv1, b, Bucket(s.bucketOf, expected, b), s.fold(Bucket(s.bucketOf, seen, b)), table1, w);
      Reverified(s, seen, inv, expected, verified, Only(w, done + {b})) == r.table
  {
    var w1, w2 := Only(w, done), Only(w, done + {b});
    var inv1, table1 := Received(s, seen, inv, expected, verified, w1), Reverified(s, seen, inv, expected, verified, w1);
    var r := BucketOutcome(s, inv1, b, Bucket(s.bucketOf, expected, b), s.fold(Bucket(s.bucketOf, seen, b)), table1, w);
    var table2 := Reverified(s, seen, inv, expected, verified, w2);
    forall c ensures Lookup(table2, c) == Lookup(r.table, c) {
      ReverifiedLookup(s, seen, inv, expected, verified, w2, c);
      ReverifiedLookup(s, seen, inv, expected, verified, w1, c);
      if c == b {
        ThisRemembered(s, seen, inv, expected, verified, w, done, b);
      } else {
        OthersRemembered(s, seen, inv, expected, verified, w, done, b, c);
        assert Lookup(r.table, c) == Lookup(table1, c);
      }
    }
    SameTable(table2, r.table);
  }

  lemma SameTable<E>(a: map<nat, E>, b: map<nat, E>)
    requires forall c :: Lookup(a, c) == Lookup(b, c)
    ensures a == b
  {
    assert forall c :: c in a <==> Lookup(a, c).Some?;
    assert forall c :: c in b <==> Lookup(b, c).Some?;
    assert forall c :: c in a ==> a[c] == Lookup(a, c).value;
    assert forall c :: c in b ==> b[c] == Lookup(b, c).value;
  }

  /** What the peer should hold: the requested hashes that are local. */
  function Expected(hashes: set<Hash>, local: Inventory): (e: Inventory)
    ensures forall h :: h in e <==> h in hashes && h in local
    ensures forall h :: h in e ==> e[h] == local[h]
  {
    map h | h in hashes && h in local :: local[h]
  }

  /** Everything a pass finds missing. */
  function Found<D(==)>(s: Scheme<D>, seen: Inventory, inv: Inventory, expected: Inventory, verified: map<nat, (D, D)>, w: Weather): set<Hash> {
    set h | h in Missing(inv, expected) && s.bucketOf(h) in Paged(s, seen, expected, verified, w) && s.bucketOf(h) in w.answering
  }

  /** With a sound table and one inventory at both reads, what a pass finds is everything
      missing in the buckets it gets an answer about. */
  lemma FoundIsMissing<D(!new)>(s: Scheme<D>, inv: Inventory, expected: Inventory, verified: map<nat, (D, D)>, w: Weather)
    requires Injective(s.fold) && AllSound(s.fold, verified)
    ensures Found(s, inv, inv, expected, verified, w) ==
      set h | h in expected && VersionHeld(inv, h) < expected[h] && s.bucketOf(h) in w.reached && s.bucketOf(h) in w.answering
  {
    ReachedIsPaged(s, inv, expected, verified, w);
  }

  lemma MoreFoundIn<D>(s: Scheme<D>, seen: Inventory, inv: Inventory, expected: Inventory, verified: map<nat, (D, D)>, w: Weather, done: set<nat>, b: nat)
    requires b in Buckets(s.bucketOf, expected) && b in w.reached && b !in done
    ensures var f1, f2 := Found(s, seen, inv, expected, verified, Only(w, done)), FoundIn(s, seen, inv, expected, verified, w, b);
      Found(s, seen, inv, expected, verified, Only(w, done + {b})) == f1 + f2 && f1 !! f2
  {
    MorePaged(s, seen, expected, verified, w, done, b);
  }

  lemma Union(a: set<Hash>, b: set<Hash>)
    requires a !! b
    ensures |a + b| == |a| + |b|
  {
  }

  lemma MoreFound<D>(s: Scheme<D>, seen: Inventory, inv: Inventory, expected: Inventory, verified: map<nat, (D, D)>, w: Weather, done: set<nat>, b: nat)
    requires b in Buckets(s.bucketOf, expected) && b in w.reached && b !in done
    ensures |Found(s, seen, inv, expected, verified, Only(w, done + {b}))|
      == |Found(s, seen, inv, expected, verified, Only(w, done))| + |FoundIn(s, seen, inv, expected, verified, w, b)|
  {
    MoreFoundIn(s, seen, inv, expected, verified, w, done, b);
    Union(Found(s, seen, inv, expected, verified, Only(w, done)), FoundIn(s, seen, inv, expected, verified, w, b));
  }

  /** Where a pass stands after these buckets: the peer, the failures, the table
      and the number found missing. */
  datatype Progress<D> = Progress(inv: Inventory, failed: set<Hash>, table: map<nat, (D, D)>, found: nat)

  function ProgressOf<D(==)>(s: Scheme<D>, seen: Inventory, inv: Inventory, expected: Inventory, verified: map<nat, (D, D)>, w: Weather): Progress<D> {
    Progress(Received(s, seen, inv, expected, verified, w), Failed(s, seen, inv, expected, verified, w),
      Reverified(s, seen, inv, expected, verified, w), |Found(s, seen, inv, expected, verified, w)|)
  }

  function TakeBucket<D(==)>(s: Scheme<D>, p: Progress<D>, b: nat, mine: Inventory, remote: D, w: Weather): Progress<D> {
    var r := BucketOutcome(s, p.inv, b, mine, remote, p.table, w);
    Progress(After(p.inv, r.missing - w.gone - w.refused, mine), p.failed + r.failed, r.table, p.found + |r.missing|)
  }

  /** Taking one more bucket extends the pass by that bucket's outcome. */
  lemma OneMoreBucket<D>(s: Scheme<D>, seen: Inventory, inv: Inventory, expected: Inventory, verified: map<nat, (D, D)>, w: Weather, done: set<nat>, b: nat)
    requires b in Buckets(s.bucketOf, expected) && b in w.reached && b !in done
    ensures ProgressOf(s, seen, inv, expected, verified, Only(w, done + {b}))
      == TakeBucket(s, ProgressOf(s, seen, inv, expected, verified, Only(w, done)), b,
           Bucket(s.bucketOf, expected, b), s.fold(Bucket(s.bucketOf, seen, b)), w)
  {
    MoreReceived(s, seen, inv, expected, verified, w, done, b);
    MoreFailed(s, seen, inv, expected, verified, w, done, b);
    MoreVerified(s, seen, inv, expected, verified, w, done, b);
    MoreFound(s, seen, inv, expected, verified, w, done, b);
    OutcomeInPass(s, seen, inv, expected, verified, w, done, b);
  }

  lemma NoBuckets<D>(s: Scheme<D>, seen: Inventory, inv: Inventory, expected: Inventory, verified: map<nat, (D, D)>, w: Weather)
    ensures ProgressOf(s, seen, inv, expected, verified, Only(w, {})) == Progress(inv, {}, verified, 0)
  {
    var none := Only(w, {});
    assert Paged(s, seen, expected, verified, none) == {};
    assert Found(s, seen, inv, expected, verified, none) == {};
    assert Failed(s, seen, inv, expected, verified, none) == {};
    assert Received(s, seen, inv, expected, verified, none) == inv;
    forall b ensures Lookup(Reverified(s, seen, inv, expected, verified, none), b) == Lookup(verified, b) {
      ReverifiedLookup(s, seen, inv, expected, verified, none, b);
    }
    SameTable(Reverified(s, seen, inv, expected, verified, none), verified);
  }

  lemma AllBuckets<D>(s: Scheme<D>, seen: Inventory, inv: Inventory, expected: Inventory, verified: map<nat, (D, D)>, w: Weather)
    ensures ProgressOf(s, seen, inv, expected, verified, Only(w, Buckets(s.bucketOf, expected)))
         == ProgressOf(s, seen, inv, expected, verified, w)
  {
    var all := Only(w, Buckets(s.bucketOf, expected));
    assert Paged(s, seen, expected, verified, all) == Paged(s, seen, expected, verified, w);
    assert Attempted(s, seen, inv, expected, verified, all) == Attempted(s, seen, inv, expected, verified, w);
    assert PushFailures(s, seen, inv, expected, verified, all) == PushFailures(s, seen, inv, expected, verified, w);
    assert Found(s, seen, inv, expected, verified, all) == Found(s, seen, inv, expected, verified, w);
    assert Failed(s, seen, inv, expected, verified, all) == Failed(s, seen, inv, expected, verified, w);
    forall b ensures Lookup(Reverified(s, seen, inv, expected, verified, all), b) == Lookup(Reverified(s, seen, inv, expected, verified, w), b) {
      ReverifiedLookup(s, seen, inv, expected, verified, all, b);
      ReverifiedLookup(s, seen, inv, expected, verified, w, b);
    }
    SameTable(Reverified(s, seen, inv, expected, verified, all), Reverified(s, seen, inv, expected, verified, w));
  }

  /** What the peer offers a pass: bucket digests, only its full inventory, no answer at
      all, or there is no client for it. */
  datatype Access = Digests | FullInventory | NoAnswer | NoClient

  class Replicator<D(==)> {
    const scheme: Scheme<D>
    var verified: map<nat, map<nat, (D, D)>>
    var drift: map<nat, nat>

    constructor (s: Scheme<D>)
      ensures scheme == s && verified == map[] && drift == map[]
    {
      scheme, verified, drift := s, map[], map[];
    }

    function VerifiedOf(peerId: nat): map<nat, (D, D)>
      reads this
    {
      if peerId in verified then verified[peerId] else map[]
    }

    /** Push each hash that is still local; report those that failed. */
    static method PushAll(peer: RemotePeer, hashes: set<Hash>, local: Inventory, w: Weather) returns (failed: set<Hash>)
      modifies peer
      ensures failed == set h | h in hashes && h in local && h !in w.gone && (h in w.refused || h in w.unconfirmed)
      ensures peer.inventory == After(old(peer.inventory), hashes - w.gone - w.refused, local)
    {
      failed := {};
      var todo := hashes;
      while todo != {}
        invariant todo <= hashes
        invariant failed == set h | h in hashes - todo && h in local && h !in w.gone && (h in w.refused || h in w.unconfirmed)
        invariant peer.inventory == After(old(peer.inventory), hashes - todo - w.gone - w.refused, local)
        decreases todo
      {
        var h :| h in todo;
        todo := todo - {h};
        if h in local && h !in w.gone {
          if h !in w.refused {
            peer.Receive(h, local[h]);
          }
          if h in w.refused || h in w.unconfirmed {
            failed := failed + {h};
          }
        }
      }
    }

    /** The full-inventory form: versions are not compared.  When the inventory request
        fails nothing happens and every hash is reported. */
    method PushMissingFull(peer: RemotePeer, peerId: nat, hashes: set<Hash>, local: Inventory, listed: bool, w: Weather)
      returns (failed: set<Hash>)
      modifies this`drift, peer
      ensures !listed ==> failed == hashes && drift == old(drift) && peer.inventory == old(peer.inventory)
      ensures listed ==>
        peer.inventory == After(old(peer.inventory), Absent(hashes, old(peer.inventory)) - w.gone - w.refused, local)
      ensures listed ==>
        failed == set h | h in Absent(hashes, old(peer.inventory)) && h in local && h !in w.gone && (h in w.refused || h in w.unconfirmed)
      ensures listed ==> drift == old(drift)[peerId := |Absent(hashes, old(peer.inventory))|]
    {
      if !listed {
        return hashes;
      }
      var missing := Absent(hashes, peer.inventory);
      drift := drift[peerId := |missing|];
      failed := PushAll(peer, missing, local, w);
    }

    /** One bucket of the pass.  `remote` is the peer's digest of it, read when
        the pass began; `table` is what is remembered about the peer. */
    method RepairBucket(peer: RemotePeer, b: nat, mine: Inventory, remote: D, table: map<nat, (D, D)>, w: Weather)
      returns (r: Outcome<D>)
      modifies peer
      ensures r == BucketOutcome(scheme, old(peer.inventory), b, mine, remote, table, w)
      ensures peer.inventory == After(old(peer.inventory), r.missing - w.gone - w.refused, mine)
    {
      var state := (remote, scheme.fold(mine));
      if b in table && table[b] == state {
        return Outcome({}, {}, table);
      }
      if b !in w.answering {
        return Outcome({}, mine.Keys, table);
      }
      var held := Bucket(scheme.bucketOf, peer.inventory, b);
      var missing := Missing(held, mine);
      var failed := PushAll(peer, missing, mine, w);
      if missing == {} {
        r := Outcome(missing, failed, table[b := state]);
      } else if failed == {} {
        r := Outcome(missing, failed, table - {b});
      } else {
        r := Outcome(missing, failed, table);
      }
    }

    /** A whole pass: the peer, the failures and the table come out as the pass
        prescribes.  Between its digests and its pages the peer may change to anything:
        `paged` is what the pages show.  Without bucket digests the full form is used, and without a client
        every hash is reported. */
    method PushMissing(peer: RemotePeer, peerId: nat, hashes: set<Hash>, local: Inventory, access: Access, paged: Inventory, w: Weather)
      returns (failed: set<Hash>)
      modifies this`verified, this`drift, peer
      ensures access.Digests? ==>
        var seen, e, v := old(peer.inventory), Expected(hashes, local), old(VerifiedOf(peerId));
        && peer.inventory == Received(scheme, seen, paged, e, v, w)
        && failed == Failed(scheme, seen, paged, e, v, w)
        && verified == old(verified)[peerId := Reverified(scheme, seen, paged, e, v, w)]
        && drift == old(drift)[peerId := |Found(scheme, seen, paged, e, v, w)|]
      ensures !access.Digests? ==> verified == old(verified)
      ensures access.FullInventory? ==>
        var absent := Absent(hashes, old(peer.inventory));
        && peer.inventory == After(old(peer.inventory), absent - w.gone - w.refused, local)
        && failed == (set h | h in absent && h in local && h !in w.gone && (h in w.refused || h in w.unconfirmed))
        && drift == old(drift)[peerId := |absent|]
      ensures access.NoClient? || access.NoAnswer? ==>
        failed == hashes && drift == old(drift) && peer.inventory == old(peer.inventory)
    {
      if access.NoClient? {
        return hashes;
      }
      if !access.Digests? {
        failed := PushMissingFull(peer, peerId, hashes, local, access.FullInventory?, w);
        return;
      }
      var e := Expected(hashes, local);
      var remote := DigestsOf(peer, e);
      ghost var seen := peer.inventory;
      peer.inventory := paged;
      var table, total;
      failed, table, total := Sweep(peer, e, remote, seen, VerifiedOf(peerId), w);
      verified := verified[peerId := table];
      drift := drift[peerId := total];
    }

    /** The loop over the buckets of a pass, whose digests tell of the peer as it was
        `seen` when the pass began. */
    method Sweep(peer: RemotePeer, e: Inventory, remote: map<nat, D>, ghost seen: Inventory, start: map<nat, (D, D)>, w: Weather)
      returns (failed: set<Hash>, table: map<nat, (D, D)>, total: nat)
      requires remote.Keys == Buckets(scheme.bucketOf, e)
      requires forall b :: b in remote ==> remote[b] == scheme.fold(Bucket(scheme.bucketOf, seen, b))
      modifies peer
      ensures Progress(peer.inventory, failed, table, total) == ProgressOf(scheme, seen, old(peer.inventory), e, start, w)
    {
      ghost var inv := peer.inventory;
      failed, table, total := {}, start, 0;
      var todo := remote.Keys;
      ghost var done := {};
      NoBuckets(scheme, seen, inv, e, start, w);
      while todo != {}
        invariant todo <= remote.Keys && done == remote.Keys - todo
        invariant Progress(peer.inventory, failed, table, total) == ProgressOf(scheme, seen, inv, e, start, Only(w, done))
        decreases todo
      {
        var b :| b in todo;
        todo := todo - {b};
        if b in w.reached {
          OneMoreBucket(scheme, seen, inv, e, start, w, done, b);
          var r := RepairBucket(peer, b, Bucket(scheme.bucketOf, e, b), remote[b], table, w);
          failed, table, total := failed + r.failed, r.table, total + |r.missing|;
        } else {
          OnlySkip(w, done, b);
        }
        done := done + {b};
      }
      assert done == Buckets(scheme.bucketOf, e);
      AllBuckets(scheme, seen, inv, e, start, w);
    }

    /** The peer's digests of the buckets asked about, in one request. */
    method DigestsOf(peer: RemotePeer, e: Inventory) returns (remote: map<nat, D>)
      ensures remote.Keys == Buckets(scheme.bucketOf, e)
      ensures forall b :: b in remote ==> remote[b] == scheme.fold(Bucket(scheme.bucketOf, peer.inventory, b))
    {
      var inv := peer.inventory;
      remote := map b | b in Buckets(scheme.bucketOf, e) :: scheme.fold(Bucket(scheme.bucketOf, inv, b));
    }
  }
}

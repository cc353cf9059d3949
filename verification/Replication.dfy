/** Copying a fragment and its bytes to a peer, and handing ownership over, as
    one node carries it out.  Requests may fail before they reach the peer or
    lose their reply after they took effect. */
module Replication {
  import opened Fragments
  import H = HandOff
  import Runs = HandOffRuns

  type NodeId = H.NodeId
  type Bytes = H.Bytes

  /** An ideal digest: equal digests mean equal bytes. */
  datatype Digest = Sha256(bytes: Bytes)

  /** What becomes of a request: it is carried out and answered, or carried out with its
      answer lost, or it never arrives. */
  datatype Reply = Works | IsLost | Fails

  /** The requests of one hand-off: the question for a digest, the bytes, the metadata,
      and the two questions that check the copy. */
  datatype Replies = Replies(digest: Reply, put: Reply, replicate: Reply, there: Reply, check: Reply)

  const ALL_WORK := Replies(Works, Works, Works, Works, Works)

  /** A node as replication sees it. */
  class Peer {
    var held: map<Hash, Fragment>
    var primary: set<Hash>
    var blobs: map<Hash, Bytes>

    constructor ()
      ensures held == map[] && primary == {} && blobs == map[]
    {
      held, primary, blobs := map[], {}, map[];
    }

    /** This peer as the hand-off protocol sees it. */
    ghost function AsNode(): H.Node
      reads this
    {
      H.Node(held.Keys, primary, blobs)
    }

    /** Metadata is filed under its own hash. */
    ghost predicate Keyed()
      reads this
    {
      forall h :: h in held ==> held[h].hash == h
    }

    /** Metadata there, and the payload's key too when it has one. */
    predicate Holds(f: Fragment)
      reads this
    {
      f.hash in held && (f.payloadRef.Some? ==> f.payloadRef.value in blobs)
    }

    /** Primary of `f` with exactly these bytes. */
    predicate Owns(f: Fragment, payload: Option<Bytes>)
      reads this
    {
      && f.hash in primary && Holds(f)
      && (f.payloadRef.Some? ==> payload == Some(blobs[f.payloadRef.value]))
    }

    /** Nothing a peer has is taken away or overwritten. */
    twostate predicate OnlyGrew()
      reads this
    {
      && (forall h :: h in old(held) ==> h in held && held[h] == old(held)[h])
      && old(primary) <= primary
      && (forall r :: r in old(blobs) ==> r in blobs && blobs[r] == old(blobs)[r])
    }

    /** No entry is new but, at most, this fragment under its hash, as it was sent. */
    twostate predicate FiledAtMost(f: Fragment)
      reads this
    {
      forall h :: h in held && h !in old(held) ==> h == f.hash && held[h] == f
    }

    /** An entry that was there is kept; otherwise the fragment is filed as it was sent. */
    twostate predicate Filed(f: Fragment)
      reads this
    {
      f.hash in held && held[f.hash] == if f.hash in old(held) then old(held)[f.hash] else f
    }

    method PutBlob(ref: Hash, data: Bytes, reply: Reply) returns (ok: bool)
      modifies this`blobs
      ensures AsNode() == if reply.Fails? then old(AsNode()) else H.PutBlob(old(AsNode()), ref, data)
      ensures ok <==> reply.Works?
    {
      if !reply.Fails? && ref !in blobs {
        blobs := blobs[ref := data];
      }
      return reply.Works?;
    }

    /** Refused while the bytes are missing. */
    method RequestReplicate(f: Fragment, asPrimary: bool, reply: Reply) returns (ok: bool)
      modifies this`held, this`primary
      ensures OnlyGrew()
      ensures var refused := f.payloadRef.Some? && f.payloadRef.value !in blobs;
        && AsNode() == (if reply.Fails? || refused then old(AsNode()) else H.Replicate(old(AsNode()), f.hash, asPrimary))
        && (ok <==> reply.Works? && !refused)
      ensures FiledAtMost(f) && (ok ==> Filed(f))
    {
      if reply.Fails? || (f.payloadRef.Some? && f.payloadRef.value !in blobs) {
        return false;
      }
      // A key that is already held keeps its fragment.
      if f.hash !in held {
        held := held[f.hash := f];
      }
      if asPrimary {
        primary := primary + {f.hash};
      }
      return reply.Works?;
    }

    method BlobDigest(ref: Hash, reply: Reply) returns (d: Option<Digest>)
      ensures d == if reply.Works? && ref in blobs then Some(Sha256(blobs[ref])) else None
    {
      d := if reply.Works? && ref in blobs then Some(Sha256(blobs[ref])) else None;
    }

    method RetrieveFragment(h: Hash, reply: Reply) returns (f: Option<Fragment>)
      ensures f == if reply.Works? && h in held then Some(held[h]) else None
    {
      f := if reply.Works? && h in held then Some(held[h]) else None;
    }
  }

  /** The bytes a node can send for a fragment. */
  function PayloadFor(f: Fragment, node: Peer): (payload: Option<Bytes>)
    reads node
    ensures forall b :: payload == Some(b) <==>
      f.payloadRef.Some? && f.payloadRef.value in node.blobs && node.blobs[f.payloadRef.value] == b
  {
    if f.payloadRef.Some? && f.payloadRef.value in node.blobs then Some(node.blobs[f.payloadRef.value]) else None
  }

  /** A push succeeds: there are no bytes to send, or they are found at the peer or are
      sent, and the metadata is answered. */
  predicate PushWorks(n: H.Node, ref: Option<Hash>, payload: Option<Bytes>, skipIfPresent: bool, w: Replies) {
    && (ref.None? || (payload.Some? && (w.put.Works? || (skipIfPresent && w.digest.Works? && Runs.BytesThere(n, ref, payload)))))
    && w.replicate.Works?
  }

  /** Bytes that the peer is found to have need not be sent; otherwise they must be, and
      nothing replaces the metadata. */
  lemma PushNeeds(n: H.Node, ref: Option<Hash>, payload: Option<Bytes>, skipIfPresent: bool, w: Replies)
    ensures PushWorks(n, ref, payload, skipIfPresent, w) ==> w.replicate.Works? && (ref.Some? ==> payload.Some?)
    ensures w.replicate.Works? && skipIfPresent && w.digest.Works? && Runs.BytesThere(n, ref, payload) ==>
      PushWorks(n, ref, payload, skipIfPresent, w)
    ensures ref.Some? && !(skipIfPresent && w.digest.Works? && Runs.BytesThere(n, ref, payload)) ==>
      (PushWorks(n, ref, payload, skipIfPresent, w) <==> payload.Some? && w.put.Works? && w.replicate.Works?)
  {
  }

  /** Bytes first, then metadata.  Success means the peer holds both; bytes it
      already had under the key are not replaced. */
  method Push(target: Peer, f: Fragment, payload: Option<Bytes>, asPrimary: bool, skipIfPresent: bool, w: Replies)
    returns (ok: bool)
    modifies target
    ensures target.OnlyGrew()
    ensures ok <==> PushWorks(old(target.AsNode()), f.payloadRef, payload, skipIfPresent, w)
    ensures Runs.Pushed(old(target.AsNode()), target.AsNode(), f.hash, f.payloadRef, payload, asPrimary, ok)
    ensures target.FiledAtMost(f) && (ok ==> target.Filed(f))
    ensures ok ==> target.Holds(f) && (asPrimary ==> f.hash in target.primary)
    ensures ok && f.payloadRef.Some? ==>
      payload.Some? && (f.payloadRef.value !in old(target.blobs) ==> target.blobs[f.payloadRef.value] == payload.value)
  {
    if f.payloadRef.Some? {
      if payload.None? {
        return false;
      }
      var present := false;
      if skipIfPresent {
        var d := target.BlobDigest(f.payloadRef.value, w.digest);
        present := d == Some(Sha256(payload.value));
      }
      if !present {
        var stored := target.PutBlob(f.payloadRef.value, payload.value, w.put);
        if !stored {
          return false;
        }
      }
    }
    ok := target.RequestReplicate(f, asPrimary, w.replicate);
  }

  /** Metadata and byte-identical payload, if the questions are answered. */
  method VerifyReplica(target: Peer, f: Fragment, payload: Option<Bytes>, w: Replies) returns (ok: bool)
    ensures ok <==>
      && w.there.Works? && f.hash in target.held
      && (f.payloadRef.Some? ==> w.check.Works? && Runs.BytesThere(target.AsNode(), f.payloadRef, payload))
  {
    var there := target.RetrieveFragment(f.hash, w.there);
    if there.None? {
      return false;
    }
    if f.payloadRef.None? {
      return true;
    }
    var d := target.BlobDigest(f.payloadRef.value, w.check);
    return payload.Some? && d == Some(Sha256(payload.value));
  }

  /** The peer has no other bytes under the key, which it would keep. */
  predicate NoConflict(n: H.Node, ref: Option<Hash>, payload: Option<Bytes>) {
    ref.None? || (payload.Some? && (ref.value in n.blobs ==> n.blobs[ref.value] == payload.value))
  }

  /** A hand-off succeeds. */
  predicate HandOffWorks(n: H.Node, ref: Option<Hash>, payload: Option<Bytes>, w: Replies) {
    PushWorks(n, ref, payload, true, w) && w.there.Works? && (ref.Some? ==> w.check.Works?) && NoConflict(n, ref, payload)
  }

  /** When no request fails, that is exactly where there are bytes to send and none in
      their way. */
  lemma CalmHandOffWorksIff(n: H.Node, ref: Option<Hash>, payload: Option<Bytes>)
    ensures HandOffWorks(n, ref, payload, ALL_WORK) <==> NoConflict(n, ref, payload)
  {
  }

  /** Success means the target is primary and its copy is verified. */
  method HandOffPrimary(target: Peer, f: Fragment, payload: Option<Bytes>, w: Replies) returns (ok: bool)
    modifies target
    ensures target.OnlyGrew()
    ensures ok <==> HandOffWorks(old(target.AsNode()), f.payloadRef, payload, w)
    ensures target.FiledAtMost(f) && (ok ==> target.Filed(f))
    ensures ok ==> target.Owns(f, payload)
    ensures Runs.HandedOver(old(target.AsNode()), target.AsNode(), f.hash, f.payloadRef, payload, ok)
  {
    ok := Push(target, f, payload, true, true, w);
    if ok {
      ok := VerifyReplica(target, f, payload, w);
    }
  }

  /** Move ownership of `h` from `node` to `peer`.  The flag is dropped only
      when the peer's copy is confirmed; otherwise the sender is untouched. */
  method HandOff(node: Peer, peer: Peer, h: Hash, w: Replies) returns (moved: bool)
    requires node != peer
    modifies node`primary, peer
    ensures peer.OnlyGrew()
    ensures moved <==> (h in node.held
      && HandOffWorks(old(peer.AsNode()), node.held[h].payloadRef, PayloadFor(node.held[h], node), w))
    ensures moved ==>
      && h in node.held && node.primary == old(node.primary) - {h}
      && peer.Owns(node.held[h], PayloadFor(node.held[h], node))
    ensures !moved ==> node.primary == old(node.primary)
    // The peer files the sender's fragment, unless it had an entry.
    ensures h in node.held ==> peer.FiledAtMost(node.held[h]) && (moved ==> peer.Filed(node.held[h]))
    // What the requests came to is a run of the protocol (`HandOffRuns.HandOffIsRun`).
    ensures h in node.held && node.held[h].hash == h ==>
      Runs.HandedOver(old(peer.AsNode()), peer.AsNode(), h, node.held[h].payloadRef, PayloadFor(node.held[h], node), moved)
    ensures h !in node.held ==> peer.AsNode() == old(peer.AsNode())
  {
    if h !in node.held {
      return false;
    }
    var f := node.held[h];
    var payload := PayloadFor(f, node);
    moved := HandOffPrimary(peer, f, payload, w);
    if moved {
      node.primary := node.primary - {h};
    }
  }

  /** Ownership passed along peers, each handing to the next, until a hand-off fails:
      whoever it has reached is primary of the fragment the first one held, with the bytes
      the first one had. */
  method PassAlong(peers: seq<Peer>, h: Hash, replies: nat -> Replies) returns (reached: nat)
    requires peers != [] && h in peers[0].held && peers[0].held[h].hash == h && h in peers[0].primary
    requires forall i, j :: 0 <= i < j < |peers| ==> peers[i] != peers[j]
    requires forall i :: 0 < i < |peers| ==> h !in peers[i].held
    modifies peers
    ensures reached < |peers|
    ensures var f, p := old(peers[0].held[h]), peers[reached];
      && h in p.primary && h in p.held && p.held[h] == f
      && PayloadFor(f, p) == old(PayloadFor(peers[0].held[h], peers[0]))
  {
    reached := 0;
    while reached + 1 < |peers|
      invariant reached < |peers|
      invariant var f, p := old(peers[0].held[h]), peers[reached];
        && h in p.primary && h in p.held && p.held[h] == f
        && PayloadFor(f, p) == old(PayloadFor(peers[0].held[h], peers[0]))
      invariant forall i :: reached < i < |peers| ==> h !in peers[i].held
    {
      var moved := HandOff(peers[reached], peers[reached + 1], h, replies(reached));
      if !moved {
        break;
      }
      reached := reached + 1;
    }
  }

  /** The part of the replicator that rebalances ownership. */
  class Replicator {
    const nodeId: NodeId
    const node: Peer
    const clients: map<NodeId, Peer>

    constructor (id: NodeId, n: Peer, c: map<NodeId, Peer>)
      ensures nodeId == id && node == n && clients == c
    {
      nodeId, node, clients := id, n, c;
    }

    /** The client for a peer id: never this node's own store. */
    ghost predicate Remote()
      reads this
    {
      forall id :: id in clients ==> clients[id] != node
    }

    /** Exactly the local primaries that the ring gives to a healthy peer; none
        while the ring is empty. */
    method MisplacedPrimaries(ring: Option<Hash -> NodeId>, healthy: set<NodeId>)
      returns (moves: map<Hash, NodeId>)
      ensures ring.None? ==> moves == map[]
      ensures ring.Some? ==> forall h :: h in moves <==>
        h in node.primary && ring.value(h) != nodeId && ring.value(h) in healthy
      ensures ring.Some? ==> forall h :: h in moves ==> moves[h] == ring.value(h)
    {
      moves := map[];
      var todo := node.primary;
      while todo != {}
        invariant todo <= node.primary
        invariant ring.None? ==> moves == map[]
        invariant ring.Some? ==> forall h :: h in moves <==>
          h in node.primary - todo && ring.value(h) != nodeId && ring.value(h) in healthy
        invariant ring.Some? ==> forall h :: h in moves ==> moves[h] == ring.value(h)
        decreases todo
      {
        var h :| h in todo;
        todo := todo - {h};
        if ring.None? {
          return map[];
        }
        if ring.value(h) != nodeId && ring.value(h) in healthy {
          moves := moves[h := ring.value(h)];
        }
      }
    }

    /** `h` is still owned here, or its ring owner owns this node's copy of it. */
    ghost predicate OwnedSomewhere(ring: Hash -> NodeId, h: Hash)
      reads this, node, clients.Values
    {
      h in node.primary
      || (h in node.held && node.held[h].hash == h
          && ring(h) in clients && clients[ring(h)].Owns(node.held[h], PayloadFor(node.held[h], node)))
    }

    /** Nothing stands in the way of handing `h` to its ring owner but the network. */
    ghost predicate Movable(ring: Hash -> NodeId, h: Hash)
      reads this, node, clients.Values
    {
      && h in node.held && ring(h) in clients
      && NoConflict(clients[ring(h)].AsNode(), node.held[h].payloadRef, PayloadFor(node.held[h], node))
    }

    /** One misplaced primary is handed to its ring owner; nothing that had an owner
        loses it, and what was movable stays so. */
    method Move(h: Hash, ring: Hash -> NodeId, w: Replies) returns (ok: bool)
      requires Remote() && node.Keyed() && h in node.primary && ring(h) in clients
      modifies node`primary, clients.Values
      ensures node.primary == if ok then old(node.primary) - {h} else old(node.primary)
      ensures forall k :: old(OwnedSomewhere(ring, k)) ==> OwnedSomewhere(ring, k)
      ensures forall k :: Movable(ring, k) <==> old(Movable(ring, k))
      ensures (ok ==> old(Movable(ring, h))) && (w == ALL_WORK ==> (ok <==> old(Movable(ring, h))))
    {
      ok := HandOff(node, clients[ring(h)], h, w);
    }

    /** The ring gives `h` to a healthy peer. */
    predicate Misplaced(ring: Hash -> NodeId, healthy: set<NodeId>, h: Hash) {
      ring(h) != nodeId && ring(h) in healthy
    }

    /** Rebalancing never loses an owner, whatever fails and wherever it is stopped, and
        counts exactly the flags it gave away: only those of misplaced primaries that are
        movable, and all of these when no request fails and it is not stopped. */
    method Rebalance(ring: Option<Hash -> NodeId>, healthy: set<NodeId>, replies: Hash -> Replies, turns: nat) returns (moved: nat)
      requires Remote() && node.Keyed()
      modifies node`primary, clients.Values
      ensures node.primary <= old(node.primary)
      ensures moved == |old(node.primary)| - |node.primary|
      ensures ring.None? ==> node.primary == old(node.primary)
      ensures ring.Some? ==> forall h :: h in old(node.primary) ==> OwnedSomewhere(ring.value, h)
      ensures ring.Some? ==> forall h :: h in old(node.primary) - node.primary ==>
        Misplaced(ring.value, healthy, h) && old(Movable(ring.value, h))
      ensures ring.Some? && turns >= |old(node.primary)| ==> forall h :: h in old(node.primary) && replies(h) == ALL_WORK ==>
        (h !in node.primary <==> Misplaced(ring.value, healthy, h) && old(Movable(ring.value, h)))
    {
      var moves := MisplacedPrimaries(ring, healthy);
      if ring.None? {
        return 0;
      }
      NoMore(moves.Keys, node.primary);
      moved := MoveAll(ring.value, moves.Keys, replies, turns);
    }

    /** The loop over the misplaced primaries. */
    method MoveAll(ring: Hash -> NodeId, moves: set<Hash>, replies: Hash -> Replies, turns: nat) returns (moved: nat)
      requires Remote() && node.Keyed() && moves <= node.primary
      modifies node`primary, clients.Values
      ensures old(node.primary) - moves <= node.primary <= old(node.primary) && moved == |old(node.primary)| - |node.primary|
      ensures forall h :: old(OwnedSomewhere(ring, h)) ==> OwnedSomewhere(ring, h)
      ensures forall h :: h in old(node.primary) - node.primary ==> old(Movable(ring, h))
      ensures turns >= |moves| ==> forall h :: h in moves && replies(h) == ALL_WORK ==>
        (h !in node.primary <==> old(Movable(ring, h)))
    {
      moved := 0;
      var todo, left := moves, turns;
      while todo != {}
        invariant todo <= moves && todo <= node.primary
        invariant old(node.primary) - moves <= node.primary <= old(node.primary) && moved == |old(node.primary)| - |node.primary|
        invariant forall h :: old(OwnedSomewhere(ring, h)) ==> OwnedSomewhere(ring, h)
        invariant forall h :: Movable(ring, h) <==> old(Movable(ring, h))
        invariant forall h :: h in old(node.primary) - node.primary ==> old(Movable(ring, h))
        invariant forall h :: h in moves - todo && replies(h) == ALL_WORK ==> (h !in node.primary <==> old(Movable(ring, h)))
        invariant turns >= |moves| ==> left >= |todo|
        decreases todo
      {
        if left == 0 {
          break;  // stop requested
        }
        var h :| h in todo;
        todo, left := todo - {h}, left - 1;
        if ring(h) in clients {
          var ok := Move(h, ring, replies(h));
          if ok {
            moved := moved + 1;
          }
        }
      }
    }
  }

  lemma NoMore(a: set<Hash>, b: set<Hash>)
    requires a <= b
    ensures |a| <= |b|
  {
    assert b == a + (b - a);
  }
}

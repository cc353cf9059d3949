/** Quorum writes: every replica is contacted in parallel, and the write is
    decided by the first `quorumCount` acknowledgements or by the deadline. */
module Quorum {
  import opened Fragments
  import opened Replication
  import H = HandOff

  datatype QuorumResult = QuorumResult(success: bool, ackCount: nat, timedOut: bool, replicaCount: nat)

  /** One replica call: bytes, then metadata, then its answer. */
  datatype Call = Waiting | BytesStored | Answered(ack: bool) | Raised

  predicate IsFinished(c: Call) {
    c.Answered? || c.Raised?
  }

  /** What a call comes to with its next request. */
  function NextCall(c: Call, ref: Option<Hash>, blob: Option<Bytes>, reply: Reply, raises: bool): Call {
    if IsFinished(c) then c
    else if raises then Raised
    else if c.BytesStored? then Answered(reply.Works?)
    else if ref.None? || (blob.Some? && reply.Works?) then BytesStored
    else Answered(false)
  }

  ghost predicate AllDifferent(peers: seq<Peer>) {
    forall i, j :: 0 <= i < j < |peers| ==> peers[i] != peers[j]
  }

  /** Positions among these peers. */
  predicate Within(peers: seq<Peer>, positions: set<nat>) { forall i :: i in positions ==> i < |peers| }

  /** The peers at a set of positions. */
  ghost function PeersAt(peers: seq<Peer>, positions: set<nat>): set<Peer>
    requires Within(peers, positions)
  {
    set i | i in positions :: peers[i]
  }

  lemma PeersAtMinus(peers: seq<Peer>, positions: set<nat>, i: nat)
    requires AllDifferent(peers) && Within(peers, positions) && i in positions
    ensures PeersAt(peers, positions) == PeersAt(peers, positions - {i}) + {peers[i]}
    ensures peers[i] !in PeersAt(peers, positions - {i})
  {
    assert forall k :: k in positions - {i} ==> peers[k] != peers[i];
  }

  /** Among different peers, different positions are different peers. */
  lemma {:induction false} PeersAtCount(peers: seq<Peer>, positions: set<nat>)
    requires AllDifferent(peers) && Within(peers, positions)
    ensures |PeersAt(peers, positions)| == |positions|
    decreases positions
  {
    if positions != {} {
      var i :| i in positions;
      PeersAtCount(peers, positions - {i});
      PeersAtMinus(peers, positions, i);
    } else {
      assert PeersAt(peers, positions) == {};
    }
  }

  lemma {:induction false} PeersAtMost(peers: seq<Peer>, positions: set<nat>)
    requires Within(peers, positions)
    ensures |PeersAt(peers, positions)| <= |positions|
    decreases positions
  {
    if positions == {} {
      assert PeersAt(peers, positions) == {};
    } else {
      var i :| i in positions;
      PeersAtMost(peers, positions - {i});
      assert PeersAt(peers, positions) == PeersAt(peers, positions - {i}) + {peers[i]};
    }
  }

  /** Counting answers counts peers, whichever calls are answered, exactly when no peer is
      listed twice. */
  lemma AnswersArePeersIff(peers: seq<Peer>)
    ensures AllDifferent(peers) <==> forall positions :: Within(peers, positions) ==> |PeersAt(peers, positions)| == |positions|
  {
    if AllDifferent(peers) {
      forall positions | Within(peers, positions) ensures |PeersAt(peers, positions)| == |positions| {
        PeersAtCount(peers, positions);
      }
    } else {
      var i: nat, j: nat :| i < j < |peers| && peers[i] == peers[j];
      assert PeersAt(peers, {i, j}) == {peers[i]};
      assert Within(peers, {i, j}) && |PeersAt(peers, {i, j})| != |{i, j}|;
    }
  }

  /** A peer listed twice whose two calls were answered and taken off the pending ones:
      the loop has counted both, and so more acknowledgements than peers. */
  lemma PeerListedTwice(fan: FanOut, i: nat, j: nat, pending: set<nat>, acked: set<nat>)
    requires fan.Valid() && i < j < |fan.peers| && fan.peers[i] == fan.peers[j]
    requires fan.calls[i] == fan.calls[j] == Answered(true)
    requires fan.Tally(pending, acked) && i !in pending && j !in pending
    ensures {i, j} <= acked && |PeersAt(fan.peers, acked)| < |acked|
  {
    assert PeersAt(fan.peers, acked) == PeersAt(fan.peers, acked - {j}) by {
      assert i in acked - {j};
    }
    PeersAtMost(fan.peers, acked - {j});
  }

  datatype Store = Store(held: map<Hash, Fragment>, primary: set<Hash>, blobs: map<Hash, Bytes>)

  ghost function StoreOf(p: Peer): Store
    reads p
  {
    Store(p.held, p.primary, p.blobs)
  }

  /** What a replica call may give a peer: the blob where the payload key had no bytes, the
      fragment where its hash had no entry, and no ownership. */
  ghost predicate Gained(was: Store, now: Store, f: Fragment, blob: Option<Bytes>) {
    && now.primary == was.primary
    && (now.held == was.held || (f.hash !in was.held && now.held == was.held[f.hash := f]))
    && (now.blobs == was.blobs
        || (f.payloadRef.Some? && blob.Some? && f.payloadRef.value !in was.blobs && now.blobs == was.blobs[f.payloadRef.value := blob.value]))
  }

  predicate Has(s: Store, f: Fragment) {
    f.hash in s.held && (f.payloadRef.Some? ==> f.payloadRef.value in s.blobs)
  }

  /** The peer holds the fragment and the bytes that were sent, unless it had others. */
  ghost predicate HoldsSent(was: Store, now: Store, f: Fragment, blob: Option<Bytes>) {
    && Has(now, f)
    && now.held[f.hash] == (if f.hash in was.held then was.held[f.hash] else f)
    && (f.payloadRef.Some? ==>
          var ref := f.payloadRef.value;
          if ref in was.blobs then now.blobs[ref] == was.blobs[ref] else blob == Some(now.blobs[ref]))
  }

  /** A call and its peer: the peer gained nothing else, has the bytes once the call is past
      them, and both once it is acknowledged. */
  ghost predicate InOrder(c: Call, was: Store, now: Store, f: Fragment, blob: Option<Bytes>) {
    && Gained(was, now, f, blob)
    && (c == Answered(true) ==> Has(now, f))
    && (c == BytesStored && f.payloadRef.Some? ==> f.payloadRef.value in now.blobs)
  }

  lemma AcknowledgedHoldsSent(was: Store, now: Store, f: Fragment, blob: Option<Bytes>)
    requires InOrder(Answered(true), was, now, f, blob)
    ensures HoldsSent(was, now, f, blob)
  {
  }

  /** A table that kept its entries and gained at most `f`. */
  lemma FiledStore(now: Store, next: Store, f: Fragment)
    requires forall h :: h in now.held ==> h in next.held && next.held[h] == now.held[h]
    requires forall h :: h in next.held && h !in now.held ==> h == f.hash && next.held[h] == f
    ensures next.held == now.held || (f.hash !in now.held && next.held == now.held[f.hash := f])
  {
    if f.hash in now.held || f.hash !in next.held {
      assert next.held == now.held;
    } else {
      assert next.held == now.held[f.hash := f];
    }
  }

  /** A peer that gets the blob or the fragment stays in order with all its calls. */
  lemma StaysInOrder(c: Call, was: Store, now: Store, next: Store, f: Fragment, blob: Option<Bytes>)
    requires InOrder(c, was, now, f, blob) && next.primary == now.primary
    requires next.held == now.held || (f.hash !in now.held && next.held == now.held[f.hash := f])
    requires next.blobs == now.blobs
      || (f.payloadRef.Some? && blob.Some? && f.payloadRef.value !in now.blobs && next.blobs == now.blobs[f.payloadRef.value := blob.value])
    ensures InOrder(c, was, next, f, blob)
  {
  }

  /** One fan-out: the calls in flight and the clock they share. */
  class FanOut {
    const peers: seq<Peer>
    const fragment: Fragment
    const blob: Option<Bytes>
    /** What each peer had when the fan-out was set up. */
    ghost const was: map<Peer, Store>
    var calls: seq<Call>
    var clock: real

    constructor (ps: seq<Peer>, f: Fragment, b: Option<Bytes>)
      ensures peers == ps && fragment == f && blob == b && Valid()
      ensures forall i :: 0 <= i < |calls| ==> calls[i] == Waiting
      ensures was.Keys == (set p | p in ps) && forall p :: p in ps ==> was[p] == StoreOf(p)
    {
      peers, fragment, blob := ps, f, b;
      was := map p | p in ps :: StoreOf(p);
      calls := seq(|ps|, _ => Waiting);
      clock := *;
    }

    /** An acknowledgement is only ever given by a peer that holds both the
        bytes and the metadata; and no peer gets anything but these. */
    ghost predicate Valid()
      reads this, peers
    {
      && |calls| == |peers|
      && forall i :: 0 <= i < |peers| ==> peers[i] in was && InOrder(calls[i], was[peers[i]], StoreOf(peers[i]), fragment, blob)
    }

    /** Calls move forward, and finished ones stay as they are. */
    twostate predicate Progressed()
      reads this
    {
      && |calls| == old(|calls|)
      && old(clock) <= clock
      && forall i :: 0 <= i < |calls| && IsFinished(old(calls[i])) ==> calls[i] == old(calls[i])
    }

    method Now() returns (t: real)
      requires Valid()
      modifies this`clock
      ensures Valid() && Progressed() && calls == old(calls)
      ensures t == clock
    {
      var dt: real :| dt >= 0.0;
      clock := clock + dt;
      t := clock;
    }

    /** Some worker makes its next request: bytes first, then metadata; it may fail, lose
        its answer or raise, before or after it took effect. */
    method Work(i: nat, reply: Reply, raises: bool)
      requires Valid() && i < |calls|
      modifies this`calls, peers[i]
      ensures Valid() && Progressed()
      ensures peers[i].OnlyGrew()
      ensures calls == old(calls)[i := NextCall(old(calls[i]), fragment.payloadRef, blob, reply, raises)]
      // Bytes that arrive are the blob, metadata that arrives is the fragment, as a replica.
      ensures peers[i].AsNode() ==
        if old(calls[i]).Waiting? && !reply.Fails? && fragment.payloadRef.Some? && blob.Some? then
          H.PutBlob(old(peers[i].AsNode()), fragment.payloadRef.value, blob.value)
        else if old(calls[i]).BytesStored? && !reply.Fails? then H.Replicate(old(peers[i].AsNode()), fragment.hash, false)
        else old(peers[i].AsNode())
    {
      if IsFinished(calls[i]) {
        return;
      }
      var next := BytesStored;
      if calls[i].BytesStored? {
        var ok := SendMetadata(i, reply);
        next := Answered(ok);
      } else if fragment.payloadRef.Some? {
        next := Answered(false);
        if blob.Some? {
          var ok := SendBytes(i, reply);
          if ok {
            next := BytesStored;
          }
        }
      }
      calls := calls[i := if raises then Raised else next];
    }

    method SendBytes(i: nat, reply: Reply) returns (ok: bool)
      requires Valid() && i < |calls| && fragment.payloadRef.Some? && blob.Some?
      modifies peers[i]
      ensures Valid() && peers[i].OnlyGrew()
      ensures ok ==> fragment.payloadRef.value in peers[i].blobs
      ensures ok == reply.Works?
      ensures peers[i].AsNode() ==
        if reply.Fails? then old(peers[i].AsNode()) else H.PutBlob(old(peers[i].AsNode()), fragment.payloadRef.value, blob.value)
    {
      ok := peers[i].PutBlob(fragment.payloadRef.value, blob.value, reply);
      forall j | 0 <= j < |peers| ensures InOrder(calls[j], was[peers[j]], StoreOf(peers[j]), fragment, blob) {
        StaysInOrder(calls[j], was[peers[j]], old(StoreOf(peers[j])), StoreOf(peers[j]), fragment, blob);
      }
    }

    method SendMetadata(i: nat, reply: Reply) returns (ok: bool)
      requires Valid() && i < |calls| && calls[i].BytesStored?
      modifies peers[i]
      ensures Valid() && peers[i].OnlyGrew()
      ensures ok ==> Has(StoreOf(peers[i]), fragment)
      ensures ok == reply.Works?
      ensures peers[i].AsNode() ==
        if reply.Fails? then old(peers[i].AsNode()) else H.Replicate(old(peers[i].AsNode()), fragment.hash, false)
    {
      ok := peers[i].RequestReplicate(fragment, false, reply);
      forall j | 0 <= j < |peers| ensures InOrder(calls[j], was[peers[j]], StoreOf(peers[j]), fragment, blob) {
        FiledStore(old(StoreOf(peers[j])), StoreOf(peers[j]), fragment);
        StaysInOrder(calls[j], was[peers[j]], old(StoreOf(peers[j])), StoreOf(peers[j]), fragment, blob);
      }
    }

    /** The workers go on, in any order and as far as they get. */
    method Proceed()
      requires Valid()
      modifies this`calls, peers
      ensures Valid() && Progressed()
    {
      var steps :| 0 <= steps;
      for k := 0 to steps
        invariant Valid() && Progressed()
      {
        var i :| 0 <= i;
        if i < |calls| {
          var reply: Reply, raises: bool := *, *;
          Work(i, reply, raises);
        }
      }
    }

    /** One call per peer is pending at first. */
    method Submit() returns (pending: set<nat>)
      ensures forall j: nat :: j in pending <==> j < |peers|
    {
      pending := {};
      for i := 0 to |peers|
        invariant forall j: nat :: j in pending <==> j < i
      {
        pending := pending + {i};
      }
    }

    /** Every call that is not pending has finished, and `acked` are exactly those of them
        that answered yes. */
    ghost predicate Tally(pending: set<nat>, acked: set<nat>)
      requires |calls| == |peers|
      reads this
    {
      && Within(peers, pending) && Within(peers, acked)
      && (forall i: nat :: i < |peers| && i !in pending ==> IsFinished(calls[i]))
      && (forall i: nat :: i < |peers| ==> (i in acked <==> i !in pending && calls[i] == Answered(true)))
    }

    /** Return when a pending call has finished, or at the deadline. */
    method Wait(pending: set<nat>, ghost acked: set<nat>, deadline: real) returns (done: set<nat>)
      requires Valid() && Tally(pending, acked)
      modifies this`calls, this`clock, peers
      ensures Valid() && Tally(pending, acked) && old(clock) <= clock
      ensures done == set i | i in pending && IsFinished(calls[i])
      ensures done == {} ==> deadline <= clock
    {
      Proceed();
      done := set i | i in pending && IsFinished(calls[i]);
      if done == {} && clock < deadline {
        clock := deadline;
      }
    }

    /** The time, while the workers go on; what was counted stays counted. */
    method Later(ghost pending: set<nat>, ghost acked: set<nat>) returns (t: real)
      requires Valid() && Tally(pending, acked)
      modifies this`calls, this`clock, peers
      ensures Valid() && Tally(pending, acked)
      ensures old(clock) <= t == clock
    {
      Proceed();
      t := Now();
    }

    /** One turn of the loop: what finished is taken off the pending calls and its
        acknowledgements are counted. */
    method Collect(pending: set<nat>, ghost acked: set<nat>, deadline: real)
        returns (left: set<nat>, more: nat, ghost counted: set<nat>)
      requires Valid() && Tally(pending, acked)
      modifies this`calls, this`clock, peers
      ensures Valid() && Tally(left, counted) && acked <= counted && more == |counted - acked| && |counted| == |acked| + more
      ensures left <= pending && old(clock) <= clock
      ensures left == pending ==> deadline <= clock
    {
      var done := Wait(pending, acked, deadline);
      left := pending - done;
      var yes := set i | i in done && calls[i] == Answered(true);
      more := |yes|;
      counted := acked + yes;
      assert counted - acked == yes && acked !! yes;
    }

    /** The fan-out.  `acked` are the positions whose acknowledgements counted. */
    method Run(quorumCount: int, timeout: real) returns (r: QuorumResult, ghost acked: set<nat>)
      requires Valid()
      modifies this`calls, this`clock, peers
      ensures Valid()
      ensures r.replicaCount == |peers| && r.ackCount == |acked|
      // Each counted position is one call, answered yes by a peer that holds both.
      ensures forall i :: i in acked ==> i < |peers| && calls[i] == Answered(true)
      // It holds the fragment and the bytes that were sent, unless it had others before.
      ensures forall i :: i in acked ==> HoldsSent(was[peers[i]], StoreOf(peers[i]), fragment, blob)
      // Nobody becomes primary.
      ensures forall i :: 0 <= i < |peers| ==> peers[i].primary == was[peers[i]].primary
      ensures r.success <==> quorumCount > 0 && peers != [] && |acked| >= quorumCount
      // At most that many peers hold bytes and metadata; with different peers, exactly.
      ensures |PeersAt(peers, acked)| <= r.ackCount
      ensures AllDifferent(peers) ==> |PeersAt(peers, acked)| == r.ackCount
      // A call that can not succeed fails as timed out at once and does nothing.
      ensures quorumCount <= 0 || peers == [] ==>
        r == QuorumResult(false, 0, true, |peers|) && unchanged(this) && forall i :: 0 <= i < |peers| ==> unchanged(peers[i])
      // A failure that is not a timeout means everyone was heard, and every yes counted.
      ensures !r.success && !r.timedOut ==>
        forall i: nat :: i < |peers| ==> IsFinished(calls[i]) && (calls[i] == Answered(true) <==> i in acked)
      // A timeout means the time was used up.
      ensures r.timedOut ==> !r.success
      ensures r.timedOut && quorumCount > 0 && peers != [] ==> old(clock) + timeout <= clock
    {
      if quorumCount <= 0 || peers == [] {
        assert PeersAt(peers, {}) == {};
        return QuorumResult(false, 0, true, |peers|), {};
      }
      var start := Now();
      var deadline := start + timeout;
      var pending, ackCount;
      pending, ackCount, acked := Poll(quorumCount, deadline);
      var success := ackCount >= quorumCount;
      var end := Later(pending, acked);
      CountedHold(pending, acked);
      r := QuorumResult(success, ackCount, !success && end >= deadline, |peers|);
    }

    /** The wait loop: until all were heard, enough acknowledged, or the deadline. */
    method Poll(quorumCount: int, deadline: real) returns (pending: set<nat>, ackCount: nat, ghost acked: set<nat>)
      requires Valid()
      modifies this`calls, this`clock, peers
      ensures Valid() && Tally(pending, acked) && ackCount == |acked| && old(clock) <= clock
      ensures pending == {} || ackCount >= quorumCount || deadline <= clock
    {
      pending := Submit();
      ackCount, acked := 0, {};
      while pending != {} && ackCount < quorumCount
        invariant Valid() && ackCount == |acked| && Tally(pending, acked) && old(clock) <= clock
        decreases pending, if clock < deadline then 1 else 0
      {
        var t := Later(pending, acked);
        if deadline - t <= 0.0 {
          break;
        }
        var more;
        pending, more, acked := Collect(pending, acked, deadline);
        ackCount := ackCount + more;
      }
    }

    lemma CountedHold(pending: set<nat>, acked: set<nat>)
      requires Valid() && Tally(pending, acked)
      ensures forall i :: i in acked ==> HoldsSent(was[peers[i]], StoreOf(peers[i]), fragment, blob)
      ensures forall i :: 0 <= i < |peers| ==> peers[i].primary == was[peers[i]].primary
      ensures |PeersAt(peers, acked)| <= |acked|
      ensures AllDifferent(peers) ==> |PeersAt(peers, acked)| == |acked|
    {
      forall i | i in acked ensures HoldsSent(was[peers[i]], StoreOf(peers[i]), fragment, blob) {
        AcknowledgedHoldsSent(was[peers[i]], StoreOf(peers[i]), fragment, blob);
      }
      PeersAtMost(peers, acked);
      if AllDifferent(peers) {
        PeersAtCount(peers, acked);
      }
    }
  }
}

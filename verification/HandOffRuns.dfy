/** Handing a fragment over, as one node carries it out request by request, is a run of
    the hand-off protocol. */
module HandOffRuns {
  import opened Fragments
  import opened HandOff
  import Loops = HandOffLoops

  // ------------------------------------------- what the requests do to the target

  /** There are no bytes to send, or the node has these. */
  predicate BytesThere(n: Node, ref: Option<Hash>, payload: Option<Bytes>) {
    ref.None? || (payload.Some? && ref.value in n.blobs && n.blobs[ref.value] == payload.value)
  }

  predicate CanSend(ref: Option<Hash>, payload: Option<Bytes>) { ref.Some? && payload.Some? }

  /** `m` is `n` after a push: nothing arrived, or the bytes only, or the metadata where
      the bytes were or had been sent.  Only the last may be reported a success. */
  predicate Pushed(n: Node, m: Node, h: Hash, ref: Option<Hash>, payload: Option<Bytes>, asPrimary: bool, ok: bool) {
    || (!ok && m == n)
    || (!ok && CanSend(ref, payload) && m == PutBlob(n, ref.value, payload.value))
    || (BytesThere(n, ref, payload) && m == Replicate(n, h, asPrimary))
    || (CanSend(ref, payload) && m == Replicate(PutBlob(n, ref.value, payload.value), h, asPrimary))
  }

  /** A push as primary, and a success only with the copy confirmed. */
  predicate HandedOver(n: Node, m: Node, h: Hash, ref: Option<Hash>, payload: Option<Bytes>, ok: bool) {
    Pushed(n, m, h, ref, payload, true, ok) && (ok ==> BytesThere(m, ref, payload))
  }

  // ------------------------------------------------------------- steps of the protocol

  function InFlight(st: Setting, c: Cluster, id: nat, s: NodeId, h: Hash, target: Node, phase: Phase): Cluster
    requires s in c.nodes
  {
    var t := st.owner(s, h);
    Cluster(c.nodes[t := target], c.transfers[id := Transfer(s, t, h, PayloadOf(st, c.nodes[s], h), phase)])
  }

  /** A hand-off of `h` by `s` may start in `c`. */
  predicate MayStart(st: Setting, c: Cluster, id: nat, s: NodeId, h: Hash) {
    && id !in c.transfers && s in c.nodes && h in c.nodes[s].primary && h in c.nodes[s].held
    && st.owner(s, h) != s && st.owner(s, h) in c.nodes
  }

  function Given(c: Cluster, s: NodeId, h: Hash): Node
    requires s in c.nodes
  {
    c.nodes[s].(primary := c.nodes[s].primary - {h})
  }

  lemma Starts(st: Setting, c: Cluster, id: nat, s: NodeId, h: Hash)
    requires MayStart(st, c, id, s, h)
    ensures Reaches(st, c, InFlight(st, c, id, s, h, c.nodes[st.owner(s, h)], Started))
  {
    var t := st.owner(s, h);
    assert c.nodes[t := c.nodes[t]] == c.nodes;
    Loops.ReachesSelf(st, c);
    Loops.ReachesOn(st, c, c, Begin(id, s, h));
  }

  /** A transfer in flight that fails leaves what it did to the target. */
  lemma Fails(st: Setting, c: Cluster, id: nat, s: NodeId, h: Hash, target: Node, phase: Phase)
    requires MayStart(st, c, id, s, h) && Reaches(st, c, InFlight(st, c, id, s, h, target, phase))
    ensures Reaches(st, c, c.(nodes := c.nodes[st.owner(s, h) := target]))
  {
    Loops.ReachesOn(st, c, InFlight(st, c, id, s, h, target, phase), Fail(id));
    assert c.transfers[id := Transfer(s, st.owner(s, h), h, PayloadOf(st, c.nodes[s], h), phase)] - {id} == c.transfers;
  }

  /** The bytes are there, or are sent. */
  lemma Sends(st: Setting, c: Cluster, id: nat, s: NodeId, h: Hash, target: Node)
    requires MayStart(st, c, id, s, h)
    requires var n, ref, payload := c.nodes[st.owner(s, h)], st.payloadRef(h), PayloadOf(st, c.nodes[s], h);
      (target == n && BytesThere(n, ref, payload)) || (CanSend(ref, payload) && target == PutBlob(n, ref.value, payload.value))
    ensures Reaches(st, c, InFlight(st, c, id, s, h, target, BytesSent))
  {
    var n, ref, payload := c.nodes[st.owner(s, h)], st.payloadRef(h), PayloadOf(st, c.nodes[s], h);
    var started := InFlight(st, c, id, s, h, n, Started);
    Starts(st, c, id, s, h);
    var step := if BytesThere(n, ref, payload) then SkipUpload(id) else Upload(id, false);
    Loops.ReachesOn(st, c, started, step);
    assert Next(st, started, step).nodes == c.nodes[st.owner(s, h) := target];
    assert Next(st, started, step).transfers == InFlight(st, c, id, s, h, target, BytesSent).transfers;
  }

  lemma Claims(st: Setting, c: Cluster, id: nat, s: NodeId, h: Hash, target: Node)
    requires MayStart(st, c, id, s, h) && Accepts(st, target, h)
    requires Reaches(st, c, InFlight(st, c, id, s, h, target, BytesSent))
    ensures Reaches(st, c, InFlight(st, c, id, s, h, Replicate(target, h, true), Claimed))
  {
    var sent, claimed := InFlight(st, c, id, s, h, target, BytesSent), InFlight(st, c, id, s, h, Replicate(target, h, true), Claimed);
    Loops.ReachesOn(st, c, sent, Claim(id, false));
    assert Next(st, sent, Claim(id, false)).nodes == claimed.nodes;
    assert Next(st, sent, Claim(id, false)).transfers == claimed.transfers;
  }

  /** A confirmed copy: the sender gives up its flag. */
  lemma Drops(st: Setting, c: Cluster, id: nat, s: NodeId, h: Hash, target: Node)
    requires MayStart(st, c, id, s, h) && Confirms(st, target, h, PayloadOf(st, c.nodes[s], h))
    requires Reaches(st, c, InFlight(st, c, id, s, h, target, Claimed))
    ensures Reaches(st, c, c.(nodes := c.nodes[st.owner(s, h) := target][s := Given(c, s, h)]))
  {
    var claimed, verified := InFlight(st, c, id, s, h, target, Claimed), InFlight(st, c, id, s, h, target, Verified);
    Loops.ReachesOn(st, c, claimed, Verify(id));
    assert Next(st, claimed, Verify(id)).transfers == verified.transfers;
    Loops.ReachesOn(st, c, verified, DropFlag(id));
    assert Next(st, verified, DropFlag(id)).transfers == c.transfers;
  }

  /** Whatever the requests of a hand-off came to, the cluster has gone through a run of
      the protocol: the target is as the requests left it, and the sender gave up its flag
      exactly on success. */
  lemma HandOffIsRun(st: Setting, c: Cluster, id: nat, s: NodeId, h: Hash, m: Node, moved: bool)
    requires MayStart(st, c, id, s, h)
    requires HandedOver(c.nodes[st.owner(s, h)], m, h, st.payloadRef(h), PayloadOf(st, c.nodes[s], h), moved)
    ensures var after := c.nodes[st.owner(s, h) := m];
      Reaches(st, c, c.(nodes := if moved then after[s := Given(c, s, h)] else after))
  {
    var n, ref, payload := c.nodes[st.owner(s, h)], st.payloadRef(h), PayloadOf(st, c.nodes[s], h);
    if !moved && m == n {
      Starts(st, c, id, s, h);
      Fails(st, c, id, s, h, m, Started);
    } else if !moved && CanSend(ref, payload) && m == PutBlob(n, ref.value, payload.value) {
      Sends(st, c, id, s, h, m);
      Fails(st, c, id, s, h, m, BytesSent);
    } else {
      var k := if BytesThere(n, ref, payload) && m == Replicate(n, h, true) then n else PutBlob(n, ref.value, payload.value);
      Sends(st, c, id, s, h, k);
      Claims(st, c, id, s, h, k);
      if moved {
        Drops(st, c, id, s, h, m);
      } else {
        Fails(st, c, id, s, h, m, Claimed);
      }
    }
  }

  /** So where opinions converge a hand-off leaves every owned hash owned, with the same
      bytes. */
  lemma HandOffKeepsOwners(st: Setting, c: Cluster, id: nat, s: NodeId, h: Hash, m: Node, moved: bool, k: Hash, bytes: Option<Bytes>)
    requires MayStart(st, c, id, s, h) && c.transfers == map[]
    requires HandedOver(c.nodes[st.owner(s, h)], m, h, st.payloadRef(h), PayloadOf(st, c.nodes[s], h), moved)
    requires Converges(st, c.nodes.Keys, k) && HasOwner(st, c, k, bytes)
    ensures var after := c.nodes[st.owner(s, h) := m];
      HasOwner(st, c.(nodes := if moved then after[s := Given(c, s, h)] else after), k, bytes)
  {
    HandOffIsRun(st, c, id, s, h, m, moved);
    var after := c.nodes[st.owner(s, h) := m];
    ConvergentIsSafe(st, c, c.(nodes := if moved then after[s := Given(c, s, h)] else after), k, bytes);
  }
}

/** Primary hand-off as a protocol: any number of nodes move ownership of any
    number of fragments at once, interleaved step by step, with any request
    failing or losing its reply.

    Each node asks its own hash ring who should own a hash.  When every node
    has the same ring this is one owner per hash; here each node may have its
    own opinion, so that the exact condition for safety can be stated. */
module HandOff {
  import opened Fragments

  type NodeId = nat
  type Bytes = seq<bv8>

  /** One node: the fragments whose metadata it holds, those it owns as primary,
      and the payload bytes in its content store. */
  datatype Node = Node(held: set<Hash>, primary: set<Hash>, blobs: map<Hash, Bytes>)

  /** How far one hand-off has come. */
  datatype Phase = Started | BytesSent | Claimed | Verified

  /** A hand-off in flight, with the payload its sender read at the start. */
  datatype Transfer = Transfer(sender: NodeId, target: NodeId, hash: Hash, payload: Option<Bytes>, phase: Phase)

  datatype Cluster = Cluster(nodes: map<NodeId, Node>, transfers: map<nat, Transfer>)

  /** What stays fixed during a run: where a hash's bytes are kept, if it has
      any, and which node each node takes for the owner of each hash. */
  datatype Setting = Setting(payloadRef: Hash -> Option<Hash>, owner: (NodeId, Hash) -> NodeId)

  datatype Step =
    | Begin(id: nat, sender: NodeId, hash: Hash)
    | SkipUpload(id: nat)
    | Upload(id: nat, replyLost: bool)
    | Claim(id: nat, replyLost: bool)
    | Verify(id: nat)
    | DropFlag(id: nat)
    | Fail(id: nat)
    | Store(node: NodeId, hash: Hash, bytes: Bytes, asPrimary: bool)

  // ------------------------------------------------------------ what a node does

  /** `PUT /blobs`: a key that has bytes keeps those. */
  function PutBlob(n: Node, ref: Hash, data: Bytes): Node {
    if ref in n.blobs then n else n.(blobs := n.blobs[ref := data])
  }

  /** `POST /replicate`: refused while the payload is missing. */
  predicate Accepts(st: Setting, n: Node, h: Hash) {
    st.payloadRef(h).None? || st.payloadRef(h).value in n.blobs
  }

  function Replicate(n: Node, h: Hash, asPrimary: bool): Node {
    n.(held := n.held + {h}, primary := if asPrimary then n.primary + {h} else n.primary)
  }

  /** The bytes a node has for a hash. */
  function PayloadOf(st: Setting, n: Node, h: Hash): Option<Bytes> {
    match st.payloadRef(h)
    case None => None
    case Some(ref) => if ref in n.blobs then Some(n.blobs[ref]) else None
  }

  /** Metadata present, and payload digest equal when there is a payload. */
  predicate Confirms(st: Setting, n: Node, h: Hash, payload: Option<Bytes>) {
    && h in n.held
    && (st.payloadRef(h).Some? ==> payload.Some? && PayloadOf(st, n, h) == payload)
  }

  // --------------------------------------------------------------------- steps

  function SetNode(c: Cluster, n: NodeId, v: Node): Cluster {
    c.(nodes := c.nodes[n := v])
  }

  function SetPhase(c: Cluster, id: nat, p: Phase): Cluster
    requires id in c.transfers
  {
    c.(transfers := c.transfers[id := c.transfers[id].(phase := p)])
  }

  /** The transfer ends; its sender keeps its flag. */
  function End(c: Cluster, id: nat): Cluster {
    c.(transfers := c.transfers - {id})
  }

  /** A step that is not possible leaves the cluster as it is. */
  function Next(st: Setting, c: Cluster, s: Step): Cluster {
    match s
    case Begin(id, n, h) =>
      if id !in c.transfers && n in c.nodes && h in c.nodes[n].primary && h in c.nodes[n].held
        && st.owner(n, h) != n && st.owner(n, h) in c.nodes
      then c.(transfers := c.transfers[id := Transfer(n, st.owner(n, h), h, PayloadOf(st, c.nodes[n], h), Started)])
      else c
    case Store(n, h, bytes, asPrimary) =>
      if n !in c.nodes then c
      else
        var v := if st.payloadRef(h).Some? then PutBlob(c.nodes[n], st.payloadRef(h).value, bytes) else c.nodes[n];
        SetNode(c, n, Replicate(v, h, asPrimary))
    case _ =>
      if s.id in c.transfers && c.transfers[s.id].target in c.nodes && c.transfers[s.id].sender in c.nodes
      then Advance(st, c, s)
      else c
  }

  predicate OnTransfer(c: Cluster, s: Step) {
    && !s.Begin? && !s.Store?
    && s.id in c.transfers
    && c.transfers[s.id].target in c.nodes && c.transfers[s.id].sender in c.nodes
  }

  /** One request of a hand-off, or its end. */
  function Advance(st: Setting, c: Cluster, s: Step): Cluster
    requires OnTransfer(c, s)
  {
    var id := s.id;
    var tr := c.transfers[id];
    var target := c.nodes[tr.target];
    match s
    case SkipUpload(_) =>
      // The peer already has identical bytes, or there are none to send.
      if tr.phase == Started && (st.payloadRef(tr.hash).None? || (tr.payload.Some? && PayloadOf(st, target, tr.hash) == tr.payload))
      then SetPhase(c, id, BytesSent) else c
    case Upload(_, lost) =>
      if tr.phase != Started || st.payloadRef(tr.hash).None? then c
      else if tr.payload.None? then End(c, id)
      else
        var c' := SetNode(c, tr.target, PutBlob(target, st.payloadRef(tr.hash).value, tr.payload.value));
        if lost then End(c', id) else SetPhase(c', id, BytesSent)
    case Claim(_, lost) =>
      if tr.phase != BytesSent then c
      else if !Accepts(st, target, tr.hash) then End(c, id)
      else
        var c' := SetNode(c, tr.target, Replicate(target, tr.hash, true));
        if lost then End(c', id) else SetPhase(c', id, Claimed)
    case Verify(_) =>
      if tr.phase != Claimed then c
      else if Confirms(st, target, tr.hash, tr.payload) then SetPhase(c, id, Verified)
      else End(c, id)
    case DropFlag(_) =>
      if tr.phase != Verified then c
      else
        var sender := c.nodes[tr.sender];
        End(SetNode(c, tr.sender, sender.(primary := sender.primary - {tr.hash})), id)
    case Fail(_) => End(c, id)
  }

  /** The clusters a run goes through, step by step. */
  ghost predicate IsRun(st: Setting, cs: seq<Cluster>, steps: seq<Step>) {
    && |cs| == |steps| + 1
    && forall i :: 0 <= i < |steps| ==> cs[i + 1] == Next(st, cs[i], steps[i])
  }

  ghost predicate Reaches(st: Setting, c: Cluster, d: Cluster) {
    exists cs, steps :: IsRun(st, cs, steps) && cs[0] == c && cs[|steps|] == d
  }

  // ---------------------------------------------------------------- the promise

  /** Node `n` is a usable primary of `h`: flag, metadata and these bytes. */
  ghost predicate Owns(st: Setting, c: Cluster, n: NodeId, h: Hash, payload: Option<Bytes>) {
    && n in c.nodes
    && h in c.nodes[n].primary
    && h in c.nodes[n].held
    && PayloadOf(st, c.nodes[n], h) == payload
    && (st.payloadRef(h).Some? ==> payload.Some?)
  }

  ghost predicate HasOwner(st: Setting, c: Cluster, h: Hash, payload: Option<Bytes>) {
    exists n :: Owns(st, c, n, h, payload)
  }

  /** A ranking of the nodes that every opinion of who owns `h` descends. */
  ghost predicate Descends(st: Setting, nodes: set<NodeId>, h: Hash, rank: NodeId -> nat) {
    forall n :: n in nodes && !Settled(st, nodes, n, h) ==> rank(st.owner(n, h)) < rank(n)
  }

  /** `n` keeps `h`: it takes itself for the owner, or a node that is not there. */
  predicate Settled(st: Setting, nodes: set<NodeId>, n: NodeId, h: Hash) {
    st.owner(n, h) == n || st.owner(n, h) !in nodes
  }

  // ------------------------------------------------------------------ invariant

  /** `m` owns `h` with the bytes of `t`, at or below `t` in rank. */
  ghost predicate Heir(st: Setting, rank: NodeId -> nat, c: Cluster, t: NodeId, h: Hash, m: NodeId) {
    && t in c.nodes
    && rank(m) <= rank(t)
    && Owns(st, c, m, h, PayloadOf(st, c.nodes[t], h))
  }

  ghost predicate TransferOk(st: Setting, rank: NodeId -> nat, c: Cluster, tr: Transfer) {
    && tr.sender in c.nodes && tr.target in c.nodes
    && tr.target == st.owner(tr.sender, tr.hash) && tr.target != tr.sender
    && (tr.payload.Some? ==> tr.payload == PayloadOf(st, c.nodes[tr.sender], tr.hash))
    && (tr.phase == Started || (st.payloadRef(tr.hash).Some? ==> tr.payload.Some?))
    && ((tr.phase == Claimed || tr.phase == Verified) ==> exists m :: Heir(st, rank, c, tr.target, tr.hash, m))
    && (tr.phase == Verified ==> PayloadOf(st, c.nodes[tr.target], tr.hash) == tr.payload)
  }

  /** Kept by every step, for each hash on its own. */
  ghost predicate Inv(st: Setting, rank: NodeId -> nat, c: Cluster, h: Hash) {
    && Descends(st, c.nodes.Keys, h, rank)
    && forall id :: id in c.transfers && c.transfers[id].hash == h ==> TransferOk(st, rank, c, c.transfers[id])
  }

  // ----------------------------------------- every step but the drop only adds

  ghost predicate NodeGrows(v: Node, w: Node) {
    && v.held <= w.held && v.primary <= w.primary
    && forall r :: r in v.blobs ==> r in w.blobs && w.blobs[r] == v.blobs[r]
  }

  ghost predicate Grows(c: Cluster, d: Cluster) {
    d.nodes.Keys == c.nodes.Keys && forall n :: n in c.nodes ==> NodeGrows(c.nodes[n], d.nodes[n])
  }

  lemma SetNodeGrows(c: Cluster, n: NodeId, v: Node, d: Cluster)
    requires n in c.nodes && NodeGrows(c.nodes[n], v) && d.nodes == c.nodes[n := v]
    ensures Grows(c, d)
  {
  }

  lemma StepGrows(st: Setting, c: Cluster, s: Step)
    requires !s.DropFlag?
    ensures Grows(c, Next(st, c, s))
  {
    if OnTransfer(c, s) {
      AdvanceGrows(st, c, s);
    }
  }

  lemma AdvanceGrows(st: Setting, c: Cluster, s: Step)
    requires OnTransfer(c, s) && !s.DropFlag?
    ensures Grows(c, Advance(st, c, s))
  {
    var tr, d := c.transfers[s.id], Advance(st, c, s);
    var target := c.nodes[tr.target];
    if d.nodes != c.nodes {
      var v := if s.Upload? then PutBlob(target, st.payloadRef(tr.hash).value, tr.payload.value) else Replicate(target, tr.hash, true);
      SetNodeGrows(c, tr.target, v, d);
    }
  }

  lemma OwnsGrows(st: Setting, c: Cluster, d: Cluster, n: NodeId, h: Hash, payload: Option<Bytes>)
    requires Grows(c, d) && Owns(st, c, n, h, payload)
    ensures Owns(st, d, n, h, payload)
  {
  }

  lemma HeirGrows(st: Setting, rank: NodeId -> nat, c: Cluster, d: Cluster, t: NodeId, h: Hash)
    requires Grows(c, d) && exists m :: Heir(st, rank, c, t, h, m)
    ensures exists m :: Heir(st, rank, d, t, h, m)
  {
    var m :| Heir(st, rank, c, t, h, m);
    OwnsGrows(st, c, d, m, h, PayloadOf(st, c.nodes[t], h));
    assert Heir(st, rank, d, t, h, m);
  }

  lemma TransferGrows(st: Setting, rank: NodeId -> nat, c: Cluster, d: Cluster, tr: Transfer)
    requires Grows(c, d) && TransferOk(st, rank, c, tr)
    ensures TransferOk(st, rank, d, tr)
  {
    if tr.phase == Claimed || tr.phase == Verified {
      HeirGrows(st, rank, c, d, tr.target, tr.hash);
    }
  }

  /** The transfer a step works on comes out in order. */
  lemma AdvancedOk(st: Setting, rank: NodeId -> nat, c: Cluster, s: Step, h: Hash)
    requires Inv(st, rank, c, h) && OnTransfer(c, s) && !s.DropFlag? && c.transfers[s.id].hash == h
    ensures var d := Advance(st, c, s);
      s.id in d.transfers ==> TransferOk(st, rank, d, d.transfers[s.id])
  {
    var d := Advance(st, c, s);
    var tr := c.transfers[s.id];
    assert Next(st, c, s) == d;
    StepGrows(st, c, s);
    TransferGrows(st, rank, c, d, tr);
    if s.Claim? && s.id in d.transfers && d.transfers[s.id].phase == Claimed && tr.phase == BytesSent {
      assert Heir(st, rank, d, tr.target, tr.hash, tr.target);
    }
  }

  /** A step on one transfer leaves the others, and keeps its hash. */
  lemma OthersStay(st: Setting, c: Cluster, s: Step, id: nat)
    requires id in Next(st, c, s).transfers
    ensures id in c.transfers ==> Next(st, c, s).transfers[id].hash == c.transfers[id].hash
    ensures id in c.transfers && !(OnTransfer(c, s) && id == s.id) ==>
      Next(st, c, s).transfers[id] == c.transfers[id]
    ensures id !in c.transfers ==> s.Begin? && id == s.id && Next(st, c, s).transfers[id].phase == Started
  {
  }

  lemma GrowingStepKeepsInv(st: Setting, rank: NodeId -> nat, c: Cluster, s: Step, h: Hash)
    requires Inv(st, rank, c, h) && !s.DropFlag?
    ensures Inv(st, rank, Next(st, c, s), h)
  {
    var d := Next(st, c, s);
    StepGrows(st, c, s);
    forall id | id in d.transfers && d.transfers[id].hash == h ensures TransferOk(st, rank, d, d.transfers[id]) {
      OthersStay(st, c, s, id);
      if OnTransfer(c, s) && id == s.id {
        AdvancedOk(st, rank, c, s, h);
      } else if id in c.transfers {
        TransferGrows(st, rank, c, d, c.transfers[id]);
      }
    }
  }

  // ----------------------------------------------------------------- the drop

  /** When a sender drops its flag, someone below it owns the same bytes. */
  lemma DropHasHeir(st: Setting, rank: NodeId -> nat, c: Cluster, id: nat)
    returns (m: NodeId)
    requires id in c.transfers && c.transfers[id].phase == Verified
    requires Inv(st, rank, c, c.transfers[id].hash)
    ensures var tr := c.transfers[id]; var d := Next(st, c, DropFlag(id));
      && rank(m) < rank(tr.sender)
      && Owns(st, d, m, tr.hash, PayloadOf(st, c.nodes[tr.sender], tr.hash))
  {
    var tr := c.transfers[id];
    m :| Heir(st, rank, c, tr.target, tr.hash, m);
  }

  /** A drop changes nobody else's ownership, and no bytes. */
  lemma OwnsElsewhere(st: Setting, c: Cluster, id: nat, n: NodeId, h: Hash, payload: Option<Bytes>)
    requires OnTransfer(c, DropFlag(id))
    requires Owns(st, c, n, h, payload)
    requires n != c.transfers[id].sender || h != c.transfers[id].hash
    ensures Owns(st, Next(st, c, DropFlag(id)), n, h, payload)
  {
  }

  lemma DropKeepsHeir(st: Setting, rank: NodeId -> nat, c: Cluster, id: nat, t: NodeId, h: Hash)
    requires Inv(st, rank, c, h) && OnTransfer(c, DropFlag(id)) && c.transfers[id].phase == Verified
    requires exists m :: Heir(st, rank, c, t, h, m)
    ensures exists m :: Heir(st, rank, Next(st, c, DropFlag(id)), t, h, m)
  {
    var tr, d := c.transfers[id], Next(st, c, DropFlag(id));
    var m :| Heir(st, rank, c, t, h, m);
    if m == tr.sender && h == tr.hash {
      var k := DropHasHeir(st, rank, c, id);
      assert Heir(st, rank, d, t, h, k);
    } else {
      OwnsElsewhere(st, c, id, m, h, PayloadOf(st, c.nodes[t], h));
      assert Heir(st, rank, d, t, h, m);
    }
  }

  lemma DropKeepsInv(st: Setting, rank: NodeId -> nat, c: Cluster, id: nat, h: Hash)
    requires Inv(st, rank, c, h)
    ensures Inv(st, rank, Next(st, c, DropFlag(id)), h)
  {
    var d := Next(st, c, DropFlag(id));
    if OnTransfer(c, DropFlag(id)) && c.transfers[id].phase == Verified {
      forall j | j in d.transfers && d.transfers[j].hash == h ensures TransferOk(st, rank, d, d.transfers[j]) {
        var tr := c.transfers[j];
        if tr.phase == Claimed || tr.phase == Verified {
          DropKeepsHeir(st, rank, c, id, tr.target, tr.hash);
        }
      }
    } else {
      assert d == c;
    }
  }

  /** No step leaves a hash without an owner of the bytes it had. */
  lemma StepKeepsOwner(st: Setting, rank: NodeId -> nat, c: Cluster, s: Step, h: Hash, payload: Option<Bytes>)
    requires Inv(st, rank, c, h) && HasOwner(st, c, h, payload)
    ensures HasOwner(st, Next(st, c, s), h, payload)
  {
    var d := Next(st, c, s);
    var n :| Owns(st, c, n, h, payload);
    if !s.DropFlag? {
      StepGrows(st, c, s);
      OwnsGrows(st, c, d, n, h, payload);
    } else if OnTransfer(c, s) && c.transfers[s.id].phase == Verified {
      if n == c.transfers[s.id].sender && h == c.transfers[s.id].hash {
        var m := DropHasHeir(st, rank, c, s.id);
        assert Owns(st, d, m, h, payload);
      } else {
        OwnsElsewhere(st, c, s.id, n, h, payload);
      }
    } else {
      assert d == c;
    }
  }

  // ------------------------------------------------------------- whole runs

  /** At every point of a run the invariant holds and the owner is there. */
  lemma {:induction false} RunKeepsOwner(st: Setting, rank: NodeId -> nat, cs: seq<Cluster>, steps: seq<Step>, h: Hash, payload: Option<Bytes>, k: nat)
    requires IsRun(st, cs, steps) && k <= |steps|
    requires Inv(st, rank, cs[0], h) && HasOwner(st, cs[0], h, payload)
    ensures Inv(st, rank, cs[k], h) && HasOwner(st, cs[k], h, payload)
  {
    if k > 0 {
      var c, s := cs[k - 1], steps[k - 1];
      RunKeepsOwner(st, rank, cs, steps, h, payload, k - 1);
      assert cs[(k - 1) + 1] == Next(st, c, s);
      StepKeepsOwner(st, rank, c, s, h, payload);
      match s
      case DropFlag(id) => DropKeepsInv(st, rank, c, id, h);
      case _ => GrowingStepKeepsInv(st, rank, c, s, h);
    }
  }

  /** A hand-off that fails, at whatever step, leaves its sender primary: only
      the last step, after a confirmed copy, ever takes a flag away. */
  lemma FailureKeepsSender(st: Setting, c: Cluster, s: Step, n: NodeId, h: Hash)
    requires n in c.nodes && h in c.nodes[n].primary
    ensures n in Next(st, c, s).nodes
    ensures h !in Next(st, c, s).nodes[n].primary <==>
      s.DropFlag? && OnTransfer(c, s) && c.transfers[s.id].phase == Verified
      && c.transfers[s.id].sender == n && c.transfers[s.id].hash == h
  {
  }

  // ------------------------------------------------- when the promise is kept

  /** Ask `n` for the owner of `h`, then ask that node, and so on `k` times. */
  function Follow(st: Setting, nodes: set<NodeId>, n: NodeId, h: Hash, k: nat): NodeId
    decreases k
  {
    if k == 0 || Settled(st, nodes, n, h) then n else Follow(st, nodes, st.owner(n, h), h, k - 1)
  }

  /** From every node, asking on and on ends at a node that keeps `h`. */
  predicate Converges(st: Setting, nodes: set<NodeId>, h: Hash) {
    forall n :: n in nodes ==> Settled(st, nodes, Follow(st, nodes, n, h, |nodes|), h)
  }

  function Distance(st: Setting, nodes: set<NodeId>, n: NodeId, h: Hash, k: nat): nat
    decreases k
  {
    if k == 0 || Settled(st, nodes, n, h) then 0 else 1 + Distance(st, nodes, st.owner(n, h), h, k - 1)
  }

  lemma {:induction false} DistanceStable(st: Setting, nodes: set<NodeId>, n: NodeId, h: Hash, k: nat)
    requires Settled(st, nodes, Follow(st, nodes, n, h, k), h)
    ensures Distance(st, nodes, n, h, k + 1) == Distance(st, nodes, n, h, k)
    decreases k
  {
    if k > 0 && !Settled(st, nodes, n, h) {
      DistanceStable(st, nodes, st.owner(n, h), h, k - 1);
    }
  }

  /** If opinions converge, then whatever the interleaving and whatever fails,
      a hash that has a primary with given bytes always has one. */
  lemma ConvergentIsSafe(st: Setting, c: Cluster, d: Cluster, h: Hash, payload: Option<Bytes>)
    requires Converges(st, c.nodes.Keys, h) && c.transfers == map[]
    requires HasOwner(st, c, h, payload) && Reaches(st, c, d)
    ensures HasOwner(st, d, h, payload)
  {
    var nodes := c.nodes.Keys;
    var rank := (n: NodeId) => Distance(st, nodes, n, h, |nodes|);
    forall n | n in nodes && !Settled(st, nodes, n, h) ensures rank(st.owner(n, h)) < rank(n) {
      assert |nodes| > 0;
      DistanceStable(st, nodes, st.owner(n, h), h, |nodes| - 1);
    }
    assert Inv(st, rank, c, h);
    var cs, steps :| IsRun(st, cs, steps) && cs[0] == c && cs[|steps|] == d;
    RunKeepsOwner(st, rank, cs, steps, h, payload, |steps|);
  }

  /** Every node has the same ring. */
  ghost predicate OneRing(st: Setting) {
    forall m, n, h :: st.owner(m, h) == st.owner(n, h)
  }

  /** One agreed ring always converges, so ownership is never lost under it. */
  lemma AgreedRingIsSafe(st: Setting, c: Cluster, d: Cluster, h: Hash, payload: Option<Bytes>)
    requires OneRing(st) && c.transfers == map[]
    requires HasOwner(st, c, h, payload) && Reaches(st, c, d)
    ensures HasOwner(st, d, h, payload)
  {
    var nodes := c.nodes.Keys;
    forall n | n in nodes ensures Settled(st, nodes, Follow(st, nodes, n, h, |nodes|), h) {
      assert |nodes| > 0;
      assert Settled(st, nodes, st.owner(n, h), h);
    }
    ConvergentIsSafe(st, c, d, h, payload);
  }
}

/** The other half of hand-off safety: when opinions of who owns a hash do not
    converge, there is a loop of nodes each handing it to the next, and a run in
    which all of them drop their flags. */
module HandOffLoops {
  import opened Fragments
  import opened HandOff

  /** Distinct nodes, each taking the next for the owner of `h`, in a circle. */
  ghost predicate Loop(st: Setting, nodes: set<NodeId>, h: Hash, ring: seq<NodeId>) {
    && |ring| >= 2
    && (forall i, j :: 0 <= i < j < |ring| ==> ring[i] != ring[j])
    && (forall i :: 0 <= i < |ring| ==> ring[i] in nodes)
    && forall i {:trigger After(ring, i)} :: 0 <= i < |ring| ==> st.owner(ring[i], h) == After(ring, i)
  }

  function After(ring: seq<NodeId>, i: nat): NodeId
    requires i < |ring|
  {
    if i + 1 < |ring| then ring[i + 1] else ring[0]
  }

  // ------------------------------------------------- a loop exists: pigeonhole

  /** The nodes met when following opinions from `n`. */
  function Path(st: Setting, n: NodeId, h: Hash, k: nat): (p: seq<NodeId>)
    ensures |p| == k + 1 && p[0] == n
    ensures forall i :: 0 <= i < k ==> p[i + 1] == st.owner(p[i], h)
    decreases k
  {
    if k == 0 then [n] else [n] + Path(st, st.owner(n, h), h, k - 1)
  }

  lemma {:induction false} PathFollows(st: Setting, nodes: set<NodeId>, n: NodeId, h: Hash, k: nat)
    requires n in nodes && !Settled(st, nodes, Follow(st, nodes, n, h, k), h)
    ensures forall i :: 0 <= i <= k ==>
      Path(st, n, h, k)[i] in nodes && !Settled(st, nodes, Path(st, n, h, k)[i], h)
    decreases k
  {
    if k > 0 {
      assert !Settled(st, nodes, n, h);
      PathFollows(st, nodes, st.owner(n, h), h, k - 1);
    }
  }

  /** A sequence drawn from fewer values than its length repeats; `j` is the
      first position of a value already seen. */
  lemma {:induction false} FirstRepeat(s: seq<NodeId>, nodes: set<NodeId>, k: nat) returns (i: nat, j: nat)
    requires k <= |s| && |s| == |nodes| + 1
    requires forall x :: 0 <= x < |s| ==> s[x] in nodes
    requires forall x, y :: 0 <= x < y < k ==> s[x] != s[y]
    ensures i < j < |s| && s[i] == s[j]
    ensures forall x, y :: 0 <= x < y < j ==> s[x] != s[y]
    decreases |s| - k
  {
    if k == |s| {
      DistinctCount(s, nodes);
      assert false;
    } else if exists x :: 0 <= x < k && s[x] == s[k] {
      i :| 0 <= i < k && s[i] == s[k];
      j := k;
    } else {
      i, j := FirstRepeat(s, nodes, k + 1);
    }
  }

  lemma {:induction false} DistinctCount(s: seq<NodeId>, nodes: set<NodeId>)
    requires forall x :: 0 <= x < |s| ==> s[x] in nodes
    requires forall x, y :: 0 <= x < y < |s| ==> s[x] != s[y]
    ensures |s| <= |nodes|
  {
    if s != [] {
      var last := s[|s| - 1];
      DistinctCount(s[..|s| - 1], nodes - {last});
    }
  }

  lemma DivergenceLoops(st: Setting, nodes: set<NodeId>, h: Hash) returns (ring: seq<NodeId>)
    requires !Converges(st, nodes, h)
    ensures Loop(st, nodes, h, ring)
  {
    var n :| n in nodes && !Settled(st, nodes, Follow(st, nodes, n, h, |nodes|), h);
    var p := Path(st, n, h, |nodes|);
    PathFollows(st, nodes, n, h, |nodes|);
    var i, j := FirstRepeat(p, nodes, 0);
    ring := p[i..j];
    forall x | 0 <= x < |ring| ensures ring[x] in nodes && st.owner(ring[x], h) == After(ring, x) {
      assert ring[x] == p[i + x] && p[i + x + 1] == st.owner(p[i + x], h);
    }
    assert st.owner(ring[0], h) == After(ring, 0) && !Settled(st, nodes, ring[0], h);
  }

  // --------------------------------------------------- a run round the loop

  /** Nobody owns `h`. */
  ghost predicate Orphaned(c: Cluster, h: Hash) {
    forall n :: n in c.nodes ==> h !in c.nodes[n].primary
  }

  /** Every node holds the fragment; those of the loop own it. */
  function LoopStart(st: Setting, nodes: set<NodeId>, h: Hash, payload: Option<Bytes>, ring: seq<NodeId>): Cluster
    requires st.payloadRef(h).Some? <==> payload.Some?
  {
    Cluster(map n | n in nodes :: Holder(st, h, payload, n in ring), map[])
  }

  function Holder(st: Setting, h: Hash, payload: Option<Bytes>, owns: bool): Node
    requires st.payloadRef(h).Some? <==> payload.Some?
  {
    Node({h}, if owns then {h} else {},
      if payload.Some? then map[st.payloadRef(h).value := payload.value] else map[])
  }

  lemma ReachesSelf(st: Setting, c: Cluster)
    ensures Reaches(st, c, c)
  {
    assert IsRun(st, [c], []);
  }

  lemma ReachesOn(st: Setting, c: Cluster, d: Cluster, s: Step)
    requires Reaches(st, c, d)
    ensures Reaches(st, c, Next(st, d, s))
  {
    var cs, steps :| IsRun(st, cs, steps) && cs[0] == c && cs[|steps|] == d;
    var cs', steps' := cs + [Next(st, d, s)], steps + [s];
    forall i | 0 <= i < |steps'| ensures cs'[i + 1] == Next(st, cs'[i], steps'[i]) {
      if i < |steps| {
        assert cs[i + 1] == Next(st, cs[i], steps[i]);
      }
    }
    assert IsRun(st, cs', steps');
  }

  function Ready(st: Setting, h: Hash, payload: Option<Bytes>, ring: seq<NodeId>, i: nat): Transfer
    requires i < |ring|
  {
    Transfer(ring[i], After(ring, i), h, payload, Verified)
  }

  /** The first `k` hand-offs, all verified. */
  function AllReady(st: Setting, h: Hash, payload: Option<Bytes>, ring: seq<NodeId>, k: nat): (m: map<nat, Transfer>)
    requires k <= |ring|
    ensures forall i: nat :: i in m <==> i < k
    ensures forall i: nat {:trigger m[i]} :: i < k ==> m[i] == Ready(st, h, payload, ring, i)
  {
    if k == 0 then map[] else AllReady(st, h, payload, ring, k - 1)[k - 1 := Ready(st, h, payload, ring, k - 1)]
  }

  function InPhase(h: Hash, payload: Option<Bytes>, ring: seq<NodeId>, i: nat, d: Cluster, p: Phase): Cluster
    requires i < |ring|
  {
    d.(transfers := d.transfers[i := Transfer(ring[i], After(ring, i), h, payload, p)])
  }

  /** What each request of one hand-off in the loop does. */
  lemma PrepareSteps(st: Setting, d: Cluster, h: Hash, payload: Option<Bytes>, ring: seq<NodeId>, i: nat)
    requires Loop(st, d.nodes.Keys, h, ring) && i < |ring| && i !in d.transfers
    requires st.payloadRef(h).Some? <==> payload.Some?
    requires forall j :: 0 <= j < |ring| ==> d.nodes[ring[j]] == Holder(st, h, payload, true)
    ensures Next(st, d, Begin(i, ring[i], h)) == InPhase(h, payload, ring, i, d, Started)
    ensures Next(st, InPhase(h, payload, ring, i, d, Started), SkipUpload(i)) == InPhase(h, payload, ring, i, d, BytesSent)
    ensures Next(st, InPhase(h, payload, ring, i, d, BytesSent), Claim(i, false)) == InPhase(h, payload, ring, i, d, Claimed)
    ensures Next(st, InPhase(h, payload, ring, i, d, Claimed), Verify(i)) == InPhase(h, payload, ring, i, d, Verified)
  {
    var t := After(ring, i);
    assert t in ring && t != ring[i];
    assert d.nodes[t] == Holder(st, h, payload, true);
    assert Replicate(d.nodes[t], h, true) == d.nodes[t];
    assert d.nodes[t := d.nodes[t]] == d.nodes;
  }

  /** One node of the loop gets its hand-off verified; nothing else changes. */
  lemma PrepareOne(st: Setting, c: Cluster, d: Cluster, h: Hash, payload: Option<Bytes>, ring: seq<NodeId>, i: nat)
    requires Loop(st, d.nodes.Keys, h, ring) && i < |ring| && i !in d.transfers
    requires st.payloadRef(h).Some? <==> payload.Some?
    requires forall j :: 0 <= j < |ring| ==> d.nodes[ring[j]] == Holder(st, h, payload, true)
    requires Reaches(st, c, d)
    ensures Reaches(st, c, d.(transfers := d.transfers[i := Ready(st, h, payload, ring, i)]))
  {
    PrepareSteps(st, d, h, payload, ring, i);
    ReachesOn(st, c, d, Begin(i, ring[i], h));
    ReachesOn(st, c, InPhase(h, payload, ring, i, d, Started), SkipUpload(i));
    ReachesOn(st, c, InPhase(h, payload, ring, i, d, BytesSent), Claim(i, false));
    ReachesOn(st, c, InPhase(h, payload, ring, i, d, Claimed), Verify(i));
  }

  lemma {:induction false} PreparedAll(st: Setting, c: Cluster, h: Hash, payload: Option<Bytes>, ring: seq<NodeId>, k: nat)
    requires Loop(st, c.nodes.Keys, h, ring) && k <= |ring| && c.transfers == map[]
    requires st.payloadRef(h).Some? <==> payload.Some?
    requires forall j :: 0 <= j < |ring| ==> c.nodes[ring[j]] == Holder(st, h, payload, true)
    ensures Reaches(st, c, c.(transfers := AllReady(st, h, payload, ring, k)))
  {
    if k == 0 {
      ReachesSelf(st, c);
    } else {
      PreparedAll(st, c, h, payload, ring, k - 1);
      PrepareOne(st, c, c.(transfers := AllReady(st, h, payload, ring, k - 1)), h, payload, ring, k - 1);
    }
  }

  lemma DropOne(st: Setting, d: Cluster, h: Hash, payload: Option<Bytes>, ring: seq<NodeId>, i: nat)
    requires Loop(st, d.nodes.Keys, h, ring) && i < |ring|
    requires i in d.transfers && d.transfers[i] == Ready(st, h, payload, ring, i)
    ensures var n := ring[i];
      Next(st, d, DropFlag(i)) == Cluster(
        d.nodes[n := d.nodes[n].(primary := d.nodes[n].primary - {h})], d.transfers - {i})
  {
    assert After(ring, i) in ring;
    assert OnTransfer(d, DropFlag(i));
  }

  /** The first `k` nodes of the loop have dropped their flags. */
  ghost predicate Dropped(st: Setting, c: Cluster, d: Cluster, h: Hash, payload: Option<Bytes>, ring: seq<NodeId>, k: nat)
    requires Loop(st, c.nodes.Keys, h, ring)
  {
    && d.nodes.Keys == c.nodes.Keys
    && (forall i: nat :: k <= i < |ring| ==> i in d.transfers && d.transfers[i] == Ready(st, h, payload, ring, i))
    && (forall i :: 0 <= i < k <= |ring| ==> h !in d.nodes[ring[i]].primary)
    && (forall n :: n in c.nodes && h !in c.nodes[n].primary ==> h !in d.nodes[n].primary)
  }

  lemma DropStep(st: Setting, c: Cluster, d: Cluster, h: Hash, payload: Option<Bytes>, ring: seq<NodeId>, k: nat)
    requires Loop(st, c.nodes.Keys, h, ring) && k < |ring|
    requires Dropped(st, c, d, h, payload, ring, k)
    ensures Dropped(st, c, Next(st, d, DropFlag(k)), h, payload, ring, k + 1)
  {
    DropOne(st, d, h, payload, ring, k);
  }

  lemma DroppedNone(st: Setting, d: Cluster, h: Hash, payload: Option<Bytes>, ring: seq<NodeId>)
    requires Loop(st, d.nodes.Keys, h, ring) && d.transfers == AllReady(st, h, payload, ring, |ring|)
    ensures Dropped(st, d, d, h, payload, ring, 0)
  {
  }

  lemma DroppedOne(st: Setting, c: Cluster, d: Cluster, e': Cluster, h: Hash, payload: Option<Bytes>, ring: seq<NodeId>, k: nat)
    returns (e: Cluster)
    requires Loop(st, d.nodes.Keys, h, ring) && k < |ring|
    requires Reaches(st, c, e') && Dropped(st, d, e', h, payload, ring, k)
    ensures Reaches(st, c, e) && Dropped(st, d, e, h, payload, ring, k + 1)
  {
    e := Next(st, e', DropFlag(k));
    ReachesOn(st, c, e', DropFlag(k));
    DropStep(st, d, e', h, payload, ring, k);
  }

  /** The drops remove the flags of the loop one after the other. */
  lemma {:induction false} DroppedAll(st: Setting, c: Cluster, d: Cluster, h: Hash, payload: Option<Bytes>, ring: seq<NodeId>, k: nat)
    returns (e: Cluster)
    requires Loop(st, d.nodes.Keys, h, ring) && k <= |ring|
    requires d.transfers == AllReady(st, h, payload, ring, |ring|)
    requires Reaches(st, c, d)
    ensures Reaches(st, c, e) && Dropped(st, d, e, h, payload, ring, k)
  {
    if k == 0 {
      e := d;
      DroppedNone(st, d, h, payload, ring);
    } else {
      var e' := DroppedAll(st, c, d, h, payload, ring, k - 1);
      e := DroppedOne(st, c, d, e', h, payload, ring, k - 1);
    }
  }

  /** Some run round the loop, from a cluster where all of it owns `h`, ends
      with nobody owning `h`. */
  lemma LoopLoses(st: Setting, nodes: set<NodeId>, h: Hash, payload: Option<Bytes>, ring: seq<NodeId>)
    returns (c: Cluster, e: Cluster)
    requires Loop(st, nodes, h, ring)
    requires st.payloadRef(h).Some? <==> payload.Some?
    ensures c.nodes.Keys == nodes && c.transfers == map[] && HasOwner(st, c, h, payload)
    ensures Reaches(st, c, e) && Orphaned(e, h)
  {
    c := LoopStart(st, nodes, h, payload, ring);
    assert Owns(st, c, ring[0], h, payload);
    PreparedAll(st, c, h, payload, ring, |ring|);
    var d := c.(transfers := AllReady(st, h, payload, ring, |ring|));
    e := DroppedAll(st, c, d, h, payload, ring, |ring|);
    forall n | n in e.nodes ensures h !in e.nodes[n].primary {
      if n in ring {
        var i :| 0 <= i < |ring| && ring[i] == n;
      } else {
        assert d.nodes[n] == Holder(st, h, payload, false);
      }
    }
  }

  /** If opinions do not converge, some cluster and some run of it lose every
      primary of `h`, although nodes owned it at the start. */
  lemma DivergentIsUnsafe(st: Setting, nodes: set<NodeId>, h: Hash, payload: Option<Bytes>)
    returns (c: Cluster, e: Cluster)
    requires !Converges(st, nodes, h)
    requires st.payloadRef(h).Some? <==> payload.Some?
    ensures c.nodes.Keys == nodes && c.transfers == map[] && HasOwner(st, c, h, payload)
    ensures Reaches(st, c, e) && Orphaned(e, h)
  {
    var ring := DivergenceLoops(st, nodes, h);
    c, e := LoopLoses(st, nodes, h, payload, ring);
  }

  /** Hand-off keeps every hash owned, on every cluster over these nodes and in
      every run, exactly when opinions of who owns it converge. */
  lemma SafeIffConverges(st: Setting, nodes: set<NodeId>, h: Hash, payload: Option<Bytes>)
    requires st.payloadRef(h).Some? <==> payload.Some?
    ensures Converges(st, nodes, h) <==>
      forall c: Cluster, d: Cluster ::
        c.nodes.Keys == nodes && c.transfers == map[] && HasOwner(st, c, h, payload) && Reaches(st, c, d)
        ==> HasOwner(st, d, h, payload)
  {
    if Converges(st, nodes, h) {
      forall c: Cluster, d: Cluster |
        c.nodes.Keys == nodes && c.transfers == map[] && HasOwner(st, c, h, payload) && Reaches(st, c, d)
        ensures HasOwner(st, d, h, payload)
      {
        ConvergentIsSafe(st, c, d, h, payload);
      }
    } else {
      var c, e := DivergentIsUnsafe(st, nodes, h, payload);
      assert !HasOwner(st, e, h, payload);
    }
  }
}

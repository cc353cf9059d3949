/** The interval tree as it is stored: heap nodes rewritten in place, with a
    side table from hash to physical node.  Every method is proved to carry out
    the corresponding operation of `AvlTree`. */
module IntervalTree {
  import opened Fragments
  import A = AvlTree
  import C = AvlContents
  import Q = AvlQueries

  class IntervalNode {
    var fragment: Fragment
    var start: int
    var end: int
    var maxEnd: int
    var left: IntervalNode?
    var right: IntervalNode?
    var height: int

    constructor (f: Fragment)
      ensures fragment == f && start == f.start && end == f.end && maxEnd == f.end
      ensures left == null && right == null && height == 1
    {
      fragment, start, end, maxEnd := f, f.start, f.end, f.end;
      left, right, height := null, null, 1;
    }
  }

  /** The output list that the recursive searches append to. */
  class Results {
    var items: seq<Fragment>

    constructor ()
      ensures items == []
    {
      items := [];
    }
  }

  // ------------------------------------------------ which nodes form the tree

  /** The physical nodes of a subtree, arranged as they are linked. */
  datatype Skeleton = Nil | Fork(left: Skeleton, node: IntervalNode, right: Skeleton)

  ghost function Nodes(s: Skeleton): set<IntervalNode> {
    match s
    case Nil => {}
    case Fork(l, p, r) => Nodes(l) + {p} + Nodes(r)
  }

  /** The top node of `s` occurs nowhere else, and its subtrees share nothing. */
  ghost predicate Unshared(s: Skeleton)
    requires s.Fork?
  {
    s.node !in Nodes(s.left) && s.node !in Nodes(s.right) && Nodes(s.left) !! Nodes(s.right)
  }

  predicate Carries(p: IntervalNode, f: Fragment)
    reads p
  {
    p.fragment == f && p.start == f.start && p.end == f.end
  }

  /** `n` heads the linked nodes of `s`, without sharing, these hold the
      fragments of `t`, and every cached field is up to date. */
  ghost predicate Represents(n: IntervalNode?, s: Skeleton, t: A.Tree)
    reads Nodes(s)
    decreases s
  {
    match s
    case Nil => n == null && t.Tip?
    case Fork(l, p, r) =>
      && t.Bin? && n == p && Unshared(s) && Carries(p, t.frag)
      && p.height == A.Height(t) && p.maxEnd == A.MaxEnd(t)
      && Represents(p.left, l, t.left)
      && Represents(p.right, r, t.right)
  }

  /** As `Represents`, but the top node's height and maximum end may be stale. */
  ghost predicate Joined(n: IntervalNode?, s: Skeleton, t: A.Tree)
    reads Nodes(s)
  {
    && s.Fork? && t.Bin? && n == s.node && Unshared(s) && Carries(s.node, t.frag)
    && Represents(s.node.left, s.left, t.left)
    && Represents(s.node.right, s.right, t.right)
  }

  // ------------------------------------------------------------------ helpers

  function HeightOf(n: IntervalNode?): int
    reads n
  {
    if n == null then 0 else n.height
  }

  function MaxEndOf(n: IntervalNode?): int
    reads n
  {
    if n == null then 0 else n.maxEnd
  }

  function BalanceFactor(n: IntervalNode?): int
    reads n, if n == null then {} else {n.left, n.right}
  {
    if n == null then 0 else HeightOf(n.left) - HeightOf(n.right)
  }

  lemma CachedMeasures(n: IntervalNode?, s: Skeleton, t: A.Tree)
    requires Represents(n, s, t)
    ensures HeightOf(n) == A.Height(t) && MaxEndOf(n) == A.MaxEnd(t)
    ensures n == null <==> t.Tip?
    ensures n != null ==> n in Nodes(s)
  {
  }

  /** The nodes of a skeleton at hand have been allocated. */
  lemma NodesAllocated(s: Skeleton)
    ensures forall p :: p in Nodes(s) ==> allocated(p)
  {
    match s
    case Nil =>
    case Fork(l, p, r) =>
      NodesAllocated(l);
      NodesAllocated(r);
  }

  lemma Regroup(a: seq<Fragment>, b: seq<Fragment>, c: seq<Fragment>)
    ensures a + b + c == a + (b + c)
  {
  }

  method Update(node: IntervalNode, ghost s: Skeleton, ghost t: A.Tree)
    requires Joined(node, s, t)
    modifies node`height, node`maxEnd
    ensures Represents(node, s, t)
  {
    CachedMeasures(node.left, s.left, t.left);
    CachedMeasures(node.right, s.right, t.right);
    node.height := 1 + A.Max(HeightOf(node.left), HeightOf(node.right));
    node.maxEnd := A.Max(node.end, A.Max(MaxEndOf(node.left), MaxEndOf(node.right)));
  }

  method RotateRight(y: IntervalNode, ghost s: Skeleton, ghost t: A.Tree)
    returns (x: IntervalNode, ghost s': Skeleton)
    requires Joined(y, s, t) && t.left.Bin?
    modifies Nodes(s)`left, Nodes(s)`right, Nodes(s)`height, Nodes(s)`maxEnd
    ensures Represents(x, s', A.RotateRight(t)) && Nodes(s') == Nodes(s)
  {
    NodesAllocated(s);
    x := y.left;
    var t2 := x.right;
    ghost var Fork(Fork(a, _, b), _, c) := s;
    x.right := y;
    y.left := t2;
    assert Represents(x.left, a, t.left.left) && Represents(y.left, b, t.left.right)
        && Represents(y.right, c, t.right);
    ghost var low := Fork(b, y, c);
    Update(y, low, A.Bin(t.left.right, t.frag, t.right));
    assert Represents(x.left, a, t.left.left);
    s' := Fork(a, x, low);
    Update(x, s', A.RotateRight(t));
  }

  method RotateLeft(x: IntervalNode, ghost s: Skeleton, ghost t: A.Tree)
    returns (y: IntervalNode, ghost s': Skeleton)
    requires Joined(x, s, t) && t.right.Bin?
    modifies Nodes(s)`left, Nodes(s)`right, Nodes(s)`height, Nodes(s)`maxEnd
    ensures Represents(y, s', A.RotateLeft(t)) && Nodes(s') == Nodes(s)
  {
    NodesAllocated(s);
    y := x.right;
    var t2 := y.left;
    ghost var Fork(a, _, Fork(b, _, c)) := s;
    y.left := x;
    x.right := t2;
    assert Represents(x.left, a, t.left) && Represents(x.right, b, t.right.left)
        && Represents(y.right, c, t.right.right);
    ghost var low := Fork(a, x, b);
    Update(x, low, A.Bin(t.left, t.frag, t.right.left));
    assert Represents(y.right, c, t.right.right);
    s' := Fork(low, y, c);
    Update(y, s', A.RotateLeft(t));
  }

  method LowerLeft(node: IntervalNode, ghost s: Skeleton, ghost t: A.Tree)
    returns (r: IntervalNode, ghost s': Skeleton)
    requires Represents(node, s, t) && A.Skew(t) > 1
    modifies Nodes(s)`left, Nodes(s)`right, Nodes(s)`height, Nodes(s)`maxEnd
    ensures Represents(r, s', A.Rebalance(t)) && Nodes(s') == Nodes(s)
  {
    NodesAllocated(s);
    BalanceFactorIsSkew(node.left, s.left, t.left);
    if BalanceFactor(node.left) < 0 {
      ghost var sl;
      node.left, sl := RotateLeft(node.left, s.left, t.left);
      assert Represents(node.right, s.right, t.right);
      r, s' := RotateRight(node, Fork(sl, node, s.right), A.Bin(A.RotateLeft(t.left), t.frag, t.right));
    } else {
      r, s' := RotateRight(node, s, t);
    }
  }

  method LowerRight(node: IntervalNode, ghost s: Skeleton, ghost t: A.Tree)
    returns (r: IntervalNode, ghost s': Skeleton)
    requires Represents(node, s, t) && A.Skew(t) < -1
    modifies Nodes(s)`left, Nodes(s)`right, Nodes(s)`height, Nodes(s)`maxEnd
    ensures Represents(r, s', A.Rebalance(t)) && Nodes(s') == Nodes(s)
  {
    NodesAllocated(s);
    BalanceFactorIsSkew(node.right, s.right, t.right);
    if BalanceFactor(node.right) > 0 {
      ghost var sr;
      node.right, sr := RotateRight(node.right, s.right, t.right);
      assert Represents(node.left, s.left, t.left);
      r, s' := RotateLeft(node, Fork(s.left, node, sr), A.Bin(t.left, t.frag, A.RotateRight(t.right)));
    } else {
      r, s' := RotateLeft(node, s, t);
    }
  }

  method Rebalance(node: IntervalNode, ghost s: Skeleton, ghost t: A.Tree)
    returns (r: IntervalNode, ghost s': Skeleton)
    requires Represents(node, s, t)
    modifies Nodes(s)`left, Nodes(s)`right, Nodes(s)`height, Nodes(s)`maxEnd
    ensures Represents(r, s', A.Rebalance(t)) && Nodes(s') == Nodes(s)
  {
    BalanceFactorIsSkew(node, s, t);
    var bf := BalanceFactor(node);
    if bf > 1 {
      r, s' := LowerLeft(node, s, t);
    } else if bf < -1 {
      r, s' := LowerRight(node, s, t);
    } else {
      r, s' := node, s;
    }
  }

  /** The end of every descent: refresh the node's cached fields, then rotate. */
  method Refresh(node: IntervalNode, ghost s: Skeleton, ghost t: A.Tree)
    returns (r: IntervalNode, ghost s': Skeleton)
    requires Joined(node, s, t)
    modifies Nodes(s)`left, Nodes(s)`right, Nodes(s)`height, Nodes(s)`maxEnd
    ensures Represents(r, s', A.Rebalance(t)) && Nodes(s') == Nodes(s)
  {
    NodesAllocated(s);
    Update(node, s, t);
    r, s' := Rebalance(node, s, t);
  }

  lemma BalanceFactorIsSkew(n: IntervalNode?, s: Skeleton, t: A.Tree)
    requires Represents(n, s, t)
    ensures BalanceFactor(n) == A.Skew(t)
  {
    if n != null {
      CachedMeasures(n.left, s.left, t.left);
      CachedMeasures(n.right, s.right, t.right);
    }
  }

  method LeastNode(node: IntervalNode, ghost s: Skeleton, ghost t: A.Tree)
    returns (current: IntervalNode)
    requires Represents(node, s, t)
    ensures current in Nodes(s) && Carries(current, A.Least(t))
  {
    current := node;
    ghost var cs, ct := s, t;
    while current.left != null
      invariant Represents(current, cs, ct)
      invariant Nodes(cs) <= Nodes(s) && A.Least(ct) == A.Least(t)
      decreases cs
    {
      current := current.left;
      cs, ct := cs.left, ct.left;
    }
  }

  /** Every node of `s` other than those of hash `h` is where the side table
      says its fragment is. */
  ghost predicate Indexed(m: map<Hash, IntervalNode>, s: Skeleton, h: Option<Hash>)
    reads Nodes(s)
  {
    forall p :: p in Nodes(s) && h != Some(p.fragment.hash) ==>
      p.fragment.hash in m && m[p.fragment.hash] == p
  }

  ghost predicate IndexedAt(m: map<Hash, IntervalNode>, p: IntervalNode)
    reads p
  {
    p.fragment.hash in m && m[p.fragment.hash] == p
  }

  ghost predicate HashAbsent(s: Skeleton, h: Hash)
    reads Nodes(s)
  {
    forall p :: p in Nodes(s) ==> p.fragment.hash != h
  }

  ghost predicate HashesApart(s: Skeleton)
    reads Nodes(s)
  {
    forall p, q :: p in Nodes(s) && q in Nodes(s) && p != q ==> p.fragment.hash != q.fragment.hash
  }

  lemma IndexedWithout(m: map<Hash, IntervalNode>, s: Skeleton, h: Hash)
    requires Indexed(m, s, None) && HashAbsent(s, h)
    ensures Indexed(m - {h}, s, None)
  {
  }

  /** Redirecting one hash leaves the account of nodes that do not carry it. */
  lemma IndexedRedirected(m: map<Hash, IntervalNode>, s: Skeleton, h: Hash, p: IntervalNode)
    requires Indexed(m, s, None)
    ensures Indexed(m[h := p], s, Some(h))
    ensures HashAbsent(s, h) ==> Indexed(m[h := p], s, None)
  {
  }

  /** Below the one node that may be missing from the account, none is. */
  lemma IndexedBelow(m: map<Hash, IntervalNode>, s: Skeleton, q: IntervalNode)
    requires s.Fork? && Unshared(s) && HashesApart(s) && Indexed(m, s, Some(s.node.fragment.hash)) && q in Nodes(s.right)
    ensures Indexed(m, s.left, None) && Indexed(m, s.right, None)
    ensures HashesApart(s.right) && HashAbsent(s.left, q.fragment.hash)
  {
  }

  /** Changes of the account at other nodes leave the account of these. */
  lemma IndexedKept(m: map<Hash, IntervalNode>, m': map<Hash, IntervalNode>, s: Skeleton, except: Option<Hash>, touched: set<IntervalNode>)
    requires Indexed(m, s, except) && Nodes(s) !! touched
    requires forall k :: k in m && m[k] !in touched ==> k in m' && m'[k] == m[k]
    ensures Indexed(m', s, except)
  {
  }

  lemma IndexedFork(m: map<Hash, IntervalNode>, l: Skeleton, p: IntervalNode, r: Skeleton, except: Option<Hash>)
    requires Indexed(m, l, except) && IndexedAt(m, p) && Indexed(m, r, except)
    ensures Indexed(m, Fork(l, p, r), except)
  {
  }

  /** The account once the contents of `q` are registered at the top node. */
  lemma IndexedAbove(m: map<Hash, IntervalNode>, s: Skeleton, q: IntervalNode)
    requires s.Fork? && Unshared(s) && HashesApart(s) && Indexed(m, s, Some(s.node.fragment.hash)) && q in Nodes(s.right)
    ensures var h := q.fragment.hash;
      && h in m && m[h] == q && HashesApart(s.right)
      && Indexed(m[h := s.node], s.left, None) && Indexed(m[h := s.node], s.right, Some(h))
  {
    IndexedBelow(m, s, q);
    IndexedRedirected(m, s.left, q.fragment.hash, s.node);
    IndexedRedirected(m, s.right, q.fragment.hash, s.node);
  }

  lemma {:induction false} NodesHoldFragments(n: IntervalNode?, s: Skeleton, t: A.Tree)
    requires Represents(n, s, t)
    ensures forall p :: p in Nodes(s) ==> p.fragment in A.InOrder(t)
    ensures forall f :: f in A.InOrder(t) ==> exists p :: p in Nodes(s) && p.fragment == f
    decreases s
  {
    match s
    case Nil =>
    case Fork(l, p, r) =>
      NodesHoldFragments(p.left, l, t.left);
      NodesHoldFragments(p.right, r, t.right);
      assert p in Nodes(s) && p.fragment == t.frag;
  }

  lemma AbsentFromNodes(n: IntervalNode?, s: Skeleton, t: A.Tree, h: Hash)
    requires Represents(n, s, t)
    ensures h !in C.MapOf(t) ==> HashAbsent(s, h)
  {
    NodesHoldFragments(n, s, t);
    C.AsMapLookup(A.InOrder(t));
  }

  /** The side table finds the stored node of each hash, and with it its start. */
  lemma LookupFinds(m: map<Hash, IntervalNode>, n: IntervalNode?, s: Skeleton, t: A.Tree, h: Hash)
    requires Represents(n, s, t) && Indexed(m, s, None)
    requires h in C.MapOf(t)
    ensures h in m && m[h] in Nodes(s) && Carries(m[h], C.MapOf(t)[h])
    ensures HashesApart(s)
  {
    NodesHoldFragments(n, s, t);
    C.AsMapLookup(A.InOrder(t));
    var p :| p in Nodes(s) && p.fragment == C.MapOf(t)[h];
    NodeCarries(n, s, t, p);
  }

  lemma {:induction false} NodeCarries(n: IntervalNode?, s: Skeleton, t: A.Tree, p: IntervalNode)
    requires Represents(n, s, t) && p in Nodes(s)
    ensures Carries(p, p.fragment)
    decreases s
  {
    if p != s.node {
      if p in Nodes(s.left) {
        NodeCarries(s.node.left, s.left, t.left, p);
      } else {
        NodeCarries(s.node.right, s.right, t.right, p);
      }
    }
  }

  lemma RemovedFromNodes(n: IntervalNode?, s: Skeleton, t: A.Tree, start: int, h: Hash)
    requires C.Keyed(A.InOrder(t)) && C.StartsAt(A.InOrder(t), start, h)
    requires Represents(n, s, A.Remove(t, start, h))
    ensures HashAbsent(s, h)
  {
    NodesHoldFragments(n, s, A.Remove(t, start, h));
    C.RemoveLeavesNone(t, start, h);
  }

  class Tree {
    var root: IntervalNode?
    var nodeMap: map<Hash, IntervalNode>
    ghost var skeleton: Skeleton
    ghost var shape: A.Tree

    /** What every insert keeps, even one of a hash that is already stored. */
    ghost predicate Structured()
      reads this, Nodes(skeleton)
    {
      && Represents(root, skeleton, shape)
      && A.Balanced(shape)
      && A.Ascending(A.InOrder(shape))
    }

    /** What every insert of an absent hash and every remove keeps: in addition,
        one entry per hash, and the side table points each stored hash, and no
        other, at the live node that holds its fragment. */
    ghost predicate Valid()
      reads this, Nodes(skeleton)
    {
      && Structured()
      && C.Good(shape)
      && Indexed(nodeMap, skeleton, None)
      && nodeMap.Keys == Contents().Keys
    }

    /** The map from hash to fragment that the tree stands for. */
    ghost function Contents(): map<Hash, Fragment>
      reads this
    {
      C.MapOf(shape)
    }

    constructor ()
      ensures Valid() && Contents() == map[] && skeleton == Nil
    {
      root, nodeMap, skeleton, shape := null, map[], Nil, A.Tip;
    }

    method InsertNode(node: IntervalNode?, f: Fragment, ghost s: Skeleton, ghost t: A.Tree)
      returns (r: IntervalNode, ghost s': Skeleton)
      requires Represents(node, s, t)
      modifies this`nodeMap, Nodes(s)`left, Nodes(s)`right, Nodes(s)`height, Nodes(s)`maxEnd
      ensures Represents(r, s', A.Insert(t, f))
      ensures f.hash in nodeMap && fresh(nodeMap[f.hash]) && nodeMap[f.hash].fragment == f
      ensures nodeMap == old(nodeMap)[f.hash := nodeMap[f.hash]]
      ensures Nodes(s') == Nodes(s) + {nodeMap[f.hash]}
      decreases s, 1
    {
      if node == null {
        var n := new IntervalNode(f);
        nodeMap := nodeMap[f.hash := n];
        r, s' := n, Fork(Nil, n, Nil);
      } else if f.start < node.start || (f.start == node.start && f.hash < node.fragment.hash) {
        r, s' := InsertLeft(node, f, s, t);
      } else {
        r, s' := InsertRight(node, f, s, t);
      }
    }

    method InsertLeft(node: IntervalNode, f: Fragment, ghost s: Skeleton, ghost t: A.Tree)
      returns (r: IntervalNode, ghost s': Skeleton)
      requires Represents(node, s, t)
      modifies this`nodeMap, Nodes(s)`left, Nodes(s)`right, Nodes(s)`height, Nodes(s)`maxEnd
      ensures Represents(r, s', A.Rebalance(A.Bin(A.Insert(t.left, f), t.frag, t.right)))
      ensures f.hash in nodeMap && fresh(nodeMap[f.hash]) && nodeMap[f.hash].fragment == f
      ensures nodeMap == old(nodeMap)[f.hash := nodeMap[f.hash]]
      ensures Nodes(s') == Nodes(s) + {nodeMap[f.hash]}
      decreases s, 0
    {
      NodesAllocated(s);
      ghost var sub;
      node.left, sub := InsertNode(node.left, f, s.left, t.left);
      assert Represents(node.right, s.right, t.right);
      r, s' := Refresh(node, Fork(sub, node, s.right), A.Bin(A.Insert(t.left, f), t.frag, t.right));
    }

    method InsertRight(node: IntervalNode, f: Fragment, ghost s: Skeleton, ghost t: A.Tree)
      returns (r: IntervalNode, ghost s': Skeleton)
      requires Represents(node, s, t)
      modifies this`nodeMap, Nodes(s)`left, Nodes(s)`right, Nodes(s)`height, Nodes(s)`maxEnd
      ensures Represents(r, s', A.Rebalance(A.Bin(t.left, t.frag, A.Insert(t.right, f))))
      ensures f.hash in nodeMap && fresh(nodeMap[f.hash]) && nodeMap[f.hash].fragment == f
      ensures nodeMap == old(nodeMap)[f.hash := nodeMap[f.hash]]
      ensures Nodes(s') == Nodes(s) + {nodeMap[f.hash]}
      decreases s, 0
    {
      NodesAllocated(s);
      ghost var sub;
      node.right, sub := InsertNode(node.right, f, s.right, t.right);
      assert Represents(node.left, s.left, t.left);
      r, s' := Refresh(node, Fork(s.left, node, sub), A.Bin(t.left, t.frag, A.Insert(t.right, f)));
    }

    /** Make `r` the root and `m` the side table. */
    method Install(r: IntervalNode?, m: map<Hash, IntervalNode>, ghost s: Skeleton, ghost t: A.Tree)
      requires Represents(r, s, t)
      modifies this
      ensures root == r && nodeMap == m && skeleton == s && shape == t
      ensures Represents(root, skeleton, shape)
      ensures old(Indexed(m, s, None)) ==> Indexed(nodeMap, skeleton, None)
    {
      NodesAllocated(s);
      root, nodeMap, skeleton, shape := r, m, s, t;
      assert unchanged(Nodes(s));
    }

    /** Link a new node for `f` into the tree and register it. */
    method Graft(f: Fragment)
      requires Represents(root, skeleton, shape)
      modifies this, Nodes(skeleton)
      ensures Represents(root, skeleton, shape)
      ensures shape == A.Insert(old(shape), f)
      ensures fresh(Nodes(skeleton) - old(Nodes(skeleton)))
      ensures nodeMap.Keys == old(nodeMap.Keys) + {f.hash}
      ensures old(Indexed(nodeMap, skeleton, None) && HashAbsent(skeleton, f.hash)) ==>
        Indexed(nodeMap, skeleton, None)
    {
      NodesAllocated(skeleton);
      var r;
      ghost var s;
      r, s := InsertNode(root, f, skeleton, shape);
      assert old(Indexed(nodeMap, skeleton, None) && HashAbsent(skeleton, f.hash)) ==> Indexed(nodeMap, s, None);
      Install(r, nodeMap, s, A.Insert(shape, f));
    }

    /** Inserting puts the fragment in its place whatever is stored; when its
        hash is absent it adds exactly one entry to the map. */
    method Insert(f: Fragment)
      requires Structured()
      modifies this, Nodes(skeleton)
      ensures Structured()
      ensures shape == A.Insert(old(shape), f)
      ensures A.InOrder(shape) == C.PutInOrder(old(A.InOrder(shape)), f)
      ensures fresh(Nodes(skeleton) - old(Nodes(skeleton)))
      ensures old(Valid()) && f.hash !in old(Contents()) ==>
        Valid() && Contents() == old(Contents())[f.hash := f]
    {
      C.InsertSummary(shape, f);
      AbsentFromNodes(root, skeleton, shape, f.hash);
      Graft(f);
    }

    // ---------------------------------------------------------------- removal

    method RemoveNode(node: IntervalNode?, start: int, h: Hash, ghost s: Skeleton, ghost t: A.Tree)
      returns (r: IntervalNode?, ghost s': Skeleton)
      requires Represents(node, s, t)
      requires C.Keyed(A.InOrder(t)) && C.StartsAt(A.InOrder(t), start, h)
      requires HashesApart(s) && Indexed(nodeMap, s, Some(h))
      modifies this`nodeMap, Nodes(s)
      ensures Represents(r, s', A.Remove(t, start, h)) && Nodes(s') <= Nodes(s)
      ensures Indexed(nodeMap, s', None) && HashAbsent(s', h)
      ensures nodeMap.Keys == old(nodeMap.Keys)
      ensures forall k :: k in old(nodeMap) && old(nodeMap[k]) !in Nodes(s) ==> nodeMap[k] == old(nodeMap[k])
      decreases s, 4
    {
      NodesAllocated(s);
      if node == null {
        r, s' := null, Nil;
        return;
      }
      C.KeyedSplit(t);
      C.StartsAtSplit(A.InOrder(t.left), t.frag, A.InOrder(t.right), start, h);
      if h == node.fragment.hash {
        if node.left == null {
          r, s' := node.right, s.right;
        } else if node.right == null {
          r, s' := node.left, s.left;
        } else {
          r, s' := ReplaceBySuccessor(node, s, t);
        }
      } else if start < node.start || (start == node.start && h < node.fragment.hash) {
        r, s' := RemoveLeft(node, start, h, s, t);
      } else {
        r, s' := RemoveRight(node, start, h, s, t);
      }
      RemovedFromNodes(r, s', t, start, h);
    }

    /** As `Refresh`, keeping the side table's account of the nodes. */
    method Settle(node: IntervalNode, ghost h: Hash, ghost s: Skeleton, ghost t: A.Tree)
      returns (r: IntervalNode, ghost s': Skeleton)
      requires Joined(node, s, t) && Indexed(nodeMap, s, Some(h))
      modifies Nodes(s)`left, Nodes(s)`right, Nodes(s)`height, Nodes(s)`maxEnd
      ensures Represents(r, s', A.Rebalance(t)) && Nodes(s') == Nodes(s)
      ensures Indexed(nodeMap, s', Some(h))
    {
      NodesAllocated(s);
      r, s' := Refresh(node, s, t);
    }

    /** Remove below `node` and relink what is left of that side. */
    method UnlinkLeft(node: IntervalNode, start: int, h: Hash, ghost s: Skeleton, ghost t: A.Tree)
      returns (ghost sub: Skeleton)
      requires Joined(node, s, t)
      requires C.Keyed(A.InOrder(t.left)) && C.StartsAt(A.InOrder(t.left), start, h)
      requires HashesApart(s.left) && Indexed(nodeMap, s.left, Some(h))
      modifies this`nodeMap, node`left, Nodes(s.left)
      ensures Joined(node, Fork(sub, node, s.right), A.Bin(A.Remove(t.left, start, h), t.frag, t.right))
      ensures Nodes(sub) <= Nodes(s.left) && Indexed(nodeMap, sub, None)
      ensures nodeMap.Keys == old(nodeMap.Keys)
      ensures forall k :: k in old(nodeMap) && old(nodeMap[k]) !in Nodes(s.left) ==> nodeMap[k] == old(nodeMap[k])
      decreases s, 0
    {
      NodesAllocated(s.right);
      node.left, sub := RemoveNode(node.left, start, h, s.left, t.left);
      assert Represents(node.right, s.right, t.right);
    }

    method UnlinkRight(node: IntervalNode, start: int, h: Hash, ghost s: Skeleton, ghost t: A.Tree)
      returns (ghost sub: Skeleton)
      requires Joined(node, s, t)
      requires C.Keyed(A.InOrder(t.right)) && C.StartsAt(A.InOrder(t.right), start, h)
      requires HashesApart(s.right) && Indexed(nodeMap, s.right, Some(h))
      modifies this`nodeMap, node`right, Nodes(s.right)
      ensures Joined(node, Fork(s.left, node, sub), A.Bin(t.left, t.frag, A.Remove(t.right, start, h)))
      ensures Nodes(sub) <= Nodes(s.right) && Indexed(nodeMap, sub, None)
      ensures nodeMap.Keys == old(nodeMap.Keys)
      ensures forall k :: k in old(nodeMap) && old(nodeMap[k]) !in Nodes(s.right) ==> nodeMap[k] == old(nodeMap[k])
      decreases s, 0
    {
      NodesAllocated(s.left);
      node.right, sub := RemoveNode(node.right, start, h, s.right, t.right);
      assert Represents(node.left, s.left, t.left);
    }

    /** As `UnlinkLeft`, keeping the side table's account of all other nodes. */
    method PruneLeft(node: IntervalNode, start: int, h: Hash, ghost except: Option<Hash>,
        ghost s: Skeleton, ghost t: A.Tree)
      returns (ghost sub: Skeleton)
      requires Joined(node, s, t)
      requires C.Keyed(A.InOrder(t.left)) && C.StartsAt(A.InOrder(t.left), start, h)
      requires HashesApart(s.left) && Indexed(nodeMap, s.left, Some(h))
      requires Indexed(nodeMap, s.right, except) && IndexedAt(nodeMap, node)
      modifies this`nodeMap, node`left, Nodes(s.left)
      ensures Joined(node, Fork(sub, node, s.right), A.Bin(A.Remove(t.left, start, h), t.frag, t.right))
      ensures Nodes(sub) <= Nodes(s.left) && Indexed(nodeMap, Fork(sub, node, s.right), except)
      ensures nodeMap.Keys == old(nodeMap.Keys)
      ensures forall k :: k in old(nodeMap) && old(nodeMap[k]) !in Nodes(s.left) ==> nodeMap[k] == old(nodeMap[k])
      decreases s, 1
    {
      NodesAllocated(s.right);
      ghost var m := nodeMap;
      sub := UnlinkLeft(node, start, h, s, t);
      IndexedKept(m, nodeMap, s.right, except, Nodes(s.left));
      IndexedFork(nodeMap, sub, node, s.right, except);
    }

    /** As `UnlinkRight`, keeping the side table's account of all other nodes. */
    method PruneRight(node: IntervalNode, start: int, h: Hash, ghost except: Option<Hash>,
        ghost s: Skeleton, ghost t: A.Tree)
      returns (ghost sub: Skeleton)
      requires Joined(node, s, t)
      requires C.Keyed(A.InOrder(t.right)) && C.StartsAt(A.InOrder(t.right), start, h)
      requires HashesApart(s.right) && Indexed(nodeMap, s.right, Some(h))
      requires Indexed(nodeMap, s.left, except) && IndexedAt(nodeMap, node)
      modifies this`nodeMap, node`right, Nodes(s.right)
      ensures Joined(node, Fork(s.left, node, sub), A.Bin(t.left, t.frag, A.Remove(t.right, start, h)))
      ensures Nodes(sub) <= Nodes(s.right) && Indexed(nodeMap, Fork(s.left, node, sub), except)
      ensures nodeMap.Keys == old(nodeMap.Keys)
      ensures forall k :: k in old(nodeMap) && old(nodeMap[k]) !in Nodes(s.right) ==> nodeMap[k] == old(nodeMap[k])
      decreases s, 1
    {
      NodesAllocated(s.left);
      ghost var m := nodeMap;
      sub := UnlinkRight(node, start, h, s, t);
      IndexedKept(m, nodeMap, s.left, except, Nodes(s.right));
      IndexedFork(nodeMap, s.left, node, sub, except);
    }

    method RemoveLeft(node: IntervalNode, start: int, h: Hash, ghost s: Skeleton, ghost t: A.Tree)
      returns (r: IntervalNode?, ghost s': Skeleton)
      requires Represents(node, s, t) && node.fragment.hash != h
      requires C.Keyed(A.InOrder(t.left)) && C.StartsAt(A.InOrder(t.left), start, h)
      requires HashesApart(s) && Indexed(nodeMap, s, Some(h))
      modifies this`nodeMap, Nodes(s)
      ensures Represents(r, s', A.Rebalance(A.Bin(A.Remove(t.left, start, h), t.frag, t.right)))
      ensures Nodes(s') <= Nodes(s)
      ensures Indexed(nodeMap, s', Some(h))
      ensures nodeMap.Keys == old(nodeMap.Keys)
      ensures forall k :: k in old(nodeMap) && old(nodeMap[k]) !in Nodes(s) ==> nodeMap[k] == old(nodeMap[k])
      decreases s, 2
    {
      NodesAllocated(s);
      ghost var sub := PruneLeft(node, start, h, Some(h), s, t);
      r, s' := Settle(node, h, Fork(sub, node, s.right), A.Bin(A.Remove(t.left, start, h), t.frag, t.right));
    }

    method RemoveRight(node: IntervalNode, start: int, h: Hash, ghost s: Skeleton, ghost t: A.Tree)
      returns (r: IntervalNode?, ghost s': Skeleton)
      requires Represents(node, s, t) && node.fragment.hash != h
      requires C.Keyed(A.InOrder(t.right)) && C.StartsAt(A.InOrder(t.right), start, h)
      requires HashesApart(s) && Indexed(nodeMap, s, Some(h))
      modifies this`nodeMap, Nodes(s)
      ensures Represents(r, s', A.Rebalance(A.Bin(t.left, t.frag, A.Remove(t.right, start, h))))
      ensures Nodes(s') <= Nodes(s)
      ensures Indexed(nodeMap, s', Some(h))
      ensures nodeMap.Keys == old(nodeMap.Keys)
      ensures forall k :: k in old(nodeMap) && old(nodeMap[k]) !in Nodes(s) ==> nodeMap[k] == old(nodeMap[k])
      decreases s, 2
    {
      NodesAllocated(s);
      ghost var sub := PruneRight(node, start, h, Some(h), s, t);
      r, s' := Settle(node, h, Fork(s.left, node, sub), A.Bin(t.left, t.frag, A.Remove(t.right, start, h)));
    }

    /** Move the in-order successor's contents into `node`; the side table
        follows them. */
    method AdoptSuccessor(node: IntervalNode, ghost s: Skeleton, ghost t: A.Tree)
      returns (start: int, h: Hash)
      requires Represents(node, s, t) && t.right.Bin?
      requires HashesApart(s) && Indexed(nodeMap, s, Some(t.frag.hash))
      modifies this`nodeMap, node`fragment, node`start, node`end
      ensures var q := A.Least(t.right); start == q.start && h == q.hash
      ensures Joined(node, s, A.Bin(t.left, A.Least(t.right), t.right))
      ensures IndexedAt(nodeMap, node) && nodeMap.Keys == old(nodeMap.Keys)
      ensures forall k :: k in old(nodeMap) && old(nodeMap[k]) !in Nodes(s) ==> nodeMap[k] == old(nodeMap[k])
      ensures HashesApart(s.right)
      ensures Indexed(nodeMap, s.left, None) && Indexed(nodeMap, s.right, Some(h))
    {
      var successor := LeastNode(node.right, s.right, t.right);
      start, h := successor.start, successor.fragment.hash;
      IndexedAbove(nodeMap, s, successor);
      Overwrite(node, successor, A.Least(t.right), s, t);
    }

    /** Write the contents of the successor into `node` and register them there. */
    method Overwrite(node: IntervalNode, successor: IntervalNode, ghost f: Fragment, ghost s: Skeleton, ghost t: A.Tree)
      requires Represents(node, s, t) && Carries(successor, f)
      requires HashesApart(s.right) && Indexed(nodeMap[f.hash := node], s.left, None) && Indexed(nodeMap[f.hash := node], s.right, Some(f.hash))
      modifies this`nodeMap, node`fragment, node`start, node`end
      ensures Joined(node, s, A.Bin(t.left, f, t.right)) && nodeMap == old(nodeMap)[f.hash := node]
      ensures HashesApart(s.right) && Indexed(nodeMap, s.left, None) && Indexed(nodeMap, s.right, Some(f.hash))
    {
      NodesAllocated(s.left);
      NodesAllocated(s.right);
      node.fragment := successor.fragment;
      node.start := successor.start;
      node.end := successor.end;
      nodeMap := nodeMap[successor.fragment.hash := node];
      assert unchanged(Nodes(s.left)) && unchanged(Nodes(s.right));
      assert Represents(node.left, s.left, t.left) && Represents(node.right, s.right, t.right);
    }

    /** `node` takes over the successor's contents and the successor's old node
        is unlinked. */
    method ShiftSuccessor(node: IntervalNode, ghost s: Skeleton, ghost t: A.Tree)
      returns (ghost sub: Skeleton)
      requires Represents(node, s, t) && t.right.Bin?
      requires C.Keyed(A.InOrder(t.right))
      requires HashesApart(s) && Indexed(nodeMap, s, Some(t.frag.hash))
      modifies this`nodeMap, node, Nodes(s.right)
      ensures var q := A.Least(t.right);
        Joined(node, Fork(s.left, node, sub), A.Bin(t.left, q, A.Remove(t.right, q.start, q.hash)))
      ensures Nodes(sub) <= Nodes(s.right)
      ensures Indexed(nodeMap, Fork(s.left, node, sub), None)
      ensures nodeMap.Keys == old(nodeMap.Keys)
      ensures forall k :: k in old(nodeMap) && old(nodeMap[k]) !in Nodes(s) ==> nodeMap[k] == old(nodeMap[k])
      decreases s, 2
    {
      NodesAllocated(s.left);
      NodesAllocated(s.right);
      C.LeastStartsAt(t.right);
      var start, h := AdoptSuccessor(node, s, t);
      sub := PruneRight(node, start, h, None, s, A.Bin(t.left, A.Least(t.right), t.right));
    }

    /** Two children: replace by the in-order successor. */
    method ReplaceBySuccessor(node: IntervalNode, ghost s: Skeleton, ghost t: A.Tree)
      returns (r: IntervalNode?, ghost s': Skeleton)
      requires Represents(node, s, t) && t.right.Bin?
      requires C.Keyed(A.InOrder(t.right))
      requires HashesApart(s) && Indexed(nodeMap, s, Some(t.frag.hash))
      modifies this`nodeMap, Nodes(s)
      ensures var q := A.Least(t.right);
        Represents(r, s', A.Rebalance(A.Bin(t.left, q, A.Remove(t.right, q.start, q.hash))))
      ensures Nodes(s') <= Nodes(s)
      ensures Indexed(nodeMap, s', Some(t.frag.hash))
      ensures nodeMap.Keys == old(nodeMap.Keys)
      ensures forall k :: k in old(nodeMap) && old(nodeMap[k]) !in Nodes(s) ==> nodeMap[k] == old(nodeMap[k])
      decreases s, 3
    {
      NodesAllocated(s);
      ghost var q := A.Least(t.right);
      ghost var sub := ShiftSuccessor(node, s, t);
      r, s' := Settle(node, t.frag.hash, Fork(s.left, node, sub),
        A.Bin(t.left, q, A.Remove(t.right, q.start, q.hash)));
    }

    /** Unlink the node of hash `h`, which starts at `start`, and unregister it. */
    method Detach(start: int, h: Hash)
      requires Represents(root, skeleton, shape) && h in nodeMap
      requires C.Keyed(A.InOrder(shape)) && C.StartsAt(A.InOrder(shape), start, h)
      requires HashesApart(skeleton) && Indexed(nodeMap, skeleton, None)
      modifies this, Nodes(skeleton)
      ensures Represents(root, skeleton, shape) && Nodes(skeleton) <= old(Nodes(skeleton))
      ensures shape == A.Remove(old(shape), start, h)
      ensures Indexed(nodeMap, skeleton, None)
      ensures nodeMap.Keys == old(nodeMap.Keys) - {h}
    {
      var r;
      ghost var s;
      r, s := RemoveNode(root, start, h, skeleton, shape);
      IndexedWithout(nodeMap, s, h);
      Install(r, nodeMap - {h}, s, A.Remove(shape, start, h));
    }

    /** Removing says whether the hash was stored and deletes exactly its entry. */
    method Remove(h: Hash) returns (ok: bool)
      requires Valid()
      modifies this, Nodes(skeleton)
      ensures Valid()
      ensures ok <==> h in old(Contents())
      ensures Contents() == old(Contents()) - {h}
      ensures Nodes(skeleton) <= old(Nodes(skeleton))
    {
      if h !in nodeMap {
        return false;
      }
      LookupFinds(nodeMap, root, skeleton, shape, h);
      C.RemoveSummary(shape, h);
      var target := nodeMap[h];
      Detach(target.start, h);
      return true;
    }

    // ---------------------------------------------------------------- queries

    static method FindOverlappingRecursive(node: IntervalNode?, start: int, end: int, results: Results,
        ghost s: Skeleton, ghost t: A.Tree)
      requires Represents(node, s, t)
      modifies results
      ensures results.items == old(results.items) + Q.FindOverlapping(t, start, end)
      decreases s
    {
      if node == null {
        return;
      }
      NodesAllocated(s);
      label entry:
      CachedMeasures(node.left, s.left, t.left);
      if node.left != null && node.left.maxEnd >= start {
        FindOverlappingRecursive(node.left, start, end, results, s.left, t.left);
      }
      assert unchanged@entry(Nodes(s));
      if node.start <= end && node.end >= start {
        results.items := results.items + [node.fragment];
      }
      assert unchanged@entry(Nodes(s));
      if node.start <= end {
        FindOverlappingRecursive(node.right, start, end, results, s.right, t.right);
      }
    }

    /** Every stored fragment that overlaps, and no other, each as often as it is
        stored and in ascending key order. */
    method FindOverlapping(start: int, end: int) returns (found: seq<Fragment>)
      requires Structured()
      ensures found == Q.ScanOverlapping(A.InOrder(shape), start, end)
      ensures A.Ascending(found)
      ensures forall f ::
        Q.Copies(found, f) == if Q.Overlaps(f, start, end) then Q.Copies(A.InOrder(shape), f) else 0
    {
      NodesAllocated(skeleton);
      var results := new Results();
      FindOverlappingRecursive(root, start, end, results, skeleton, shape);
      Q.FindOverlappingIsScan(shape, start, end);
      Q.ScanAscends(A.InOrder(shape), start, end);
      forall f {
        Q.ScanOverlappingExact(A.InOrder(shape), start, end, f);
      }
      return results.items;
    }

    static method AppendHits(node: IntervalNode, position: int, maxGap: int, results: Results)
      requires Carries(node, node.fragment)
      modifies results
      ensures results.items == old(results.items) + Q.Hits(node.fragment, position, maxGap)
    {
      var gapAfter := node.start - position;
      if 0 <= gapAfter <= maxGap {
        results.items := results.items + [node.fragment];
      }
      var gapBefore := position - node.end;
      if 0 <= gapBefore <= maxGap {
        results.items := results.items + [node.fragment];
      }
    }

    static method FindAdjacentRecursive(node: IntervalNode?, position: int, maxGap: int, results: Results,
        ghost s: Skeleton, ghost t: A.Tree)
      requires Represents(node, s, t)
      modifies results
      ensures results.items == old(results.items) + Q.FindAdjacent(t, position, maxGap)
      decreases s, 2
    {
      if node == null {
        return;
      }
      NodesAllocated(s);
      AppendHits(node, position, maxGap, results);
      assert unchanged(Nodes(s));
      FindAdjacentBelow(node, position, maxGap, results, s, t);
      Regroup(old(results.items), Q.Hits(t.frag, position, maxGap), Q.AdjacentBelow(t, position, maxGap));
    }

    static method FindAdjacentBelow(node: IntervalNode, position: int, maxGap: int, results: Results,
        ghost s: Skeleton, ghost t: A.Tree)
      requires Represents(node, s, t)
      modifies results
      ensures results.items == old(results.items) + Q.AdjacentBelow(t, position, maxGap)
      decreases s, 1
    {
      NodesAllocated(s);
      FindAdjacentLeft(node, position, maxGap, results, s, t);
      assert unchanged(Nodes(s));
      FindAdjacentRight(node, position, maxGap, results, s, t);
      Regroup(old(results.items), Q.AdjacentLeft(t, position, maxGap), Q.AdjacentRight(t, position, maxGap));
    }

    static method FindAdjacentRight(node: IntervalNode, position: int, maxGap: int, results: Results,
        ghost s: Skeleton, ghost t: A.Tree)
      requires Represents(node, s, t)
      modifies results
      ensures results.items == old(results.items) + Q.AdjacentRight(t, position, maxGap)
      decreases s, 0
    {
      if node.start <= position + maxGap {
        FindAdjacentRecursive(node.right, position, maxGap, results, s.right, t.right);
      }
    }

    static method FindAdjacentLeft(node: IntervalNode, position: int, maxGap: int, results: Results,
        ghost s: Skeleton, ghost t: A.Tree)
      requires Represents(node, s, t)
      modifies results
      ensures results.items == old(results.items) + Q.AdjacentLeft(t, position, maxGap)
      decreases s, 0
    {
      CachedMeasures(node.left, s.left, t.left);
      if node.left != null && node.left.maxEnd >= position - maxGap {
        FindAdjacentRecursive(node.left, position, maxGap, results, s.left, t.left);
      }
    }

    /** Each stored fragment once per adjacency test that it passes, for every
        gap, and no other fragment. */
    method FindAdjacent(position: int, maxGap: int) returns (found: seq<Fragment>)
      requires Structured()
      ensures found == Q.ScanAdjacent(Q.PreOrder(shape), position, maxGap)
      ensures forall f ::
        Q.Copies(found, f) == Q.Copies(A.InOrder(shape), f) * |Q.Hits(f, position, maxGap)|
    {
      NodesAllocated(skeleton);
      var results := new Results();
      FindAdjacentRecursive(root, position, maxGap, results, skeleton, shape);
      Q.FindAdjacentIsScan(shape, position, maxGap);
      forall f {
        Q.FindAdjacentExact(shape, position, maxGap, f);
      }
      return results.items;
    }
  }
}

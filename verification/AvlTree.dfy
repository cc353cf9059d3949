/** The interval tree as a value: the shape the heap nodes of `IntervalTree`
    stand for, the operations on it, and what those operations guarantee. */
module AvlTree {
  import opened Fragments

  datatype Tree = Tip | Bin(left: Tree, frag: Fragment, right: Tree)

  // ---------------------------------------------------------------- measures

  function Max(a: int, b: int): int {
    if a < b then b else a
  }

  function Height(t: Tree): nat {
    match t
    case Tip => 0
    case Bin(l, _, r) => 1 + Max(Height(l), Height(r))
  }

  /** The augmentation kept in each node: 0 for an absent subtree. */
  function MaxEnd(t: Tree): int {
    match t
    case Tip => 0
    case Bin(l, x, r) => Max(x.end, Max(MaxEnd(l), MaxEnd(r)))
  }

  function InOrder(t: Tree): seq<Fragment> {
    match t
    case Tip => []
    case Bin(l, x, r) => InOrder(l) + [x] + InOrder(r)
  }

  function Size(t: Tree): nat {
    |InOrder(t)|
  }

  predicate Balanced(t: Tree) {
    match t
    case Tip => true
    case Bin(l, _, r) =>
      Balanced(l) && Balanced(r) && -1 <= Height(l) - Height(r) <= 1
  }

  /** Ascending in the tree order, equal keys allowed. */
  ghost predicate Ascending(s: seq<Fragment>) {
    forall i, j :: 0 <= i < j < |s| ==> !Before(s[j], s[i])
  }

  /** Strictly ascending: no key occurs twice. */
  ghost predicate StrictlyAscending(s: seq<Fragment>) {
    forall i, j :: 0 <= i < j < |s| ==> Before(s[i], s[j])
  }

  ghost predicate DistinctHashes(s: seq<Fragment>) {
    forall i, j :: 0 <= i < j < |s| ==> s[i].hash != s[j].hash
  }

  // -------------------------------------------------------------- operations

  function RotateRight(t: Tree): Tree
    requires t.Bin? && t.left.Bin?
  {
    Bin(t.left.left, t.left.frag, Bin(t.left.right, t.frag, t.right))
  }

  function RotateLeft(t: Tree): Tree
    requires t.Bin? && t.right.Bin?
  {
    Bin(Bin(t.left, t.frag, t.right.left), t.right.frag, t.right.right)
  }

  function Skew(t: Tree): int {
    match t
    case Tip => 0
    case Bin(l, _, r) => Height(l) - Height(r)
  }

  function Rebalance(t: Tree): Tree
    requires t.Bin?
  {
    if Skew(t) > 1 then
      var l := if Skew(t.left) < 0 then RotateLeft(t.left) else t.left;
      RotateRight(Bin(l, t.frag, t.right))
    else if Skew(t) < -1 then
      var r := if Skew(t.right) > 0 then RotateRight(t.right) else t.right;
      RotateLeft(Bin(t.left, t.frag, r))
    else t
  }

  function Insert(t: Tree, f: Fragment): (r: Tree)
    ensures r.Bin?
  {
    match t
    case Tip => Bin(Tip, f, Tip)
    case Bin(l, x, r) =>
      if Before(f, x) then Rebalance(Bin(Insert(l, f), x, r))
      else Rebalance(Bin(l, x, Insert(r, f)))
  }

  function Least(t: Tree): Fragment
    requires t.Bin?
  {
    if t.left.Tip? then t.frag else Least(t.left)
  }

  function Remove(t: Tree, start: int, hash: Hash): Tree {
    match t
    case Tip => Tip
    case Bin(l, x, r) =>
      if hash == x.hash then
        if l.Tip? then r
        else if r.Tip? then l
        else
          var s := Least(r);
          Rebalance(Bin(l, s, Remove(r, s.start, s.hash)))
      else if start < x.start || (start == x.start && hash < x.hash) then
        Rebalance(Bin(Remove(l, start, hash), x, r))
      else
        Rebalance(Bin(l, x, Remove(r, start, hash)))
  }

  // ------------------------------------------------------------ augmentation

  /** The augmentation is the true maximum: an upper bound that is attained. */
  lemma {:induction false} MaxEndIsMaximum(t: Tree)
    ensures forall i :: 0 <= i < Size(t) ==> InOrder(t)[i].end <= MaxEnd(t)
    ensures t.Bin? ==> exists i :: 0 <= i < Size(t) && InOrder(t)[i].end == MaxEnd(t)
    ensures MaxEnd(t) >= 0
  {
    match t
    case Tip =>
    case Bin(l, x, r) =>
      MaxEndIsMaximum(l);
      MaxEndIsMaximum(r);
      var s := InOrder(t);
      var n := Size(l);
      assert s[n] == x;
      assert forall i :: 0 <= i < n ==> s[i] == InOrder(l)[i];
      assert forall i :: n < i < |s| ==> s[i] == InOrder(r)[i - n - 1];
      if MaxEnd(t) == MaxEnd(l) && l.Bin? {
        var i :| 0 <= i < n && InOrder(l)[i].end == MaxEnd(l);
        assert s[i].end == MaxEnd(t);
      } else if MaxEnd(t) == MaxEnd(r) && r.Bin? {
        var i :| 0 <= i < Size(r) && InOrder(r)[i].end == MaxEnd(r);
        assert s[n + 1 + i].end == MaxEnd(t);
      } else {
        assert s[n].end == MaxEnd(t);
      }
  }

  // ----------------------------------------------------------------- balance

  /** Rotations move nodes but not the in-order sequence. */
  lemma {:induction false} RebalanceKeepsOrder(t: Tree)
    requires t.Bin?
    ensures InOrder(Rebalance(t)) == InOrder(t)
  {
    if Skew(t) > 1 {
      var l := t.left;
      if Skew(l) < 0 {
        RotateLeftKeepsOrder(l);
        RotateRightKeepsOrder(Bin(RotateLeft(l), t.frag, t.right));
      } else {
        RotateRightKeepsOrder(t);
      }
    } else if Skew(t) < -1 {
      var r := t.right;
      if Skew(r) > 0 {
        RotateRightKeepsOrder(r);
        RotateLeftKeepsOrder(Bin(t.left, t.frag, RotateRight(r)));
      } else {
        RotateLeftKeepsOrder(t);
      }
    }
  }

  lemma {:induction false} RotateRightKeepsOrder(t: Tree)
    requires t.Bin? && t.left.Bin?
    ensures InOrder(RotateRight(t)) == InOrder(t)
  {
    var l := t.left;
    calc {
      InOrder(RotateRight(t));
      InOrder(l.left) + [l.frag] + (InOrder(l.right) + [t.frag] + InOrder(t.right));
      (InOrder(l.left) + [l.frag] + InOrder(l.right)) + [t.frag] + InOrder(t.right);
      InOrder(t);
    }
  }

  lemma {:induction false} RotateLeftKeepsOrder(t: Tree)
    requires t.Bin? && t.right.Bin?
    ensures InOrder(RotateLeft(t)) == InOrder(t)
  {
    var r := t.right;
    calc {
      InOrder(RotateLeft(t));
      (InOrder(t.left) + [t.frag] + InOrder(r.left)) + [r.frag] + InOrder(r.right);
      InOrder(t.left) + [t.frag] + (InOrder(r.left) + [r.frag] + InOrder(r.right));
      InOrder(t);
    }
  }

  /** Rebalancing a node whose subtrees are balanced and differ by at most two
      restores balance, and costs at most one level of height. */
  lemma {:induction false} RebalanceRestores(t: Tree)
    requires t.Bin? && Balanced(t.left) && Balanced(t.right)
    requires -2 <= Height(t.left) - Height(t.right) <= 2
    ensures Balanced(Rebalance(t))
    ensures Height(t) - 1 <= Height(Rebalance(t)) <= Height(t)
    ensures -1 <= Height(t.left) - Height(t.right) <= 1 ==> Rebalance(t) == t
  {
    if Height(t.left) - Height(t.right) == 2 {
      LowersLeft(t);
    } else if Height(t.left) - Height(t.right) == -2 {
      LowersRight(t);
    }
  }

  lemma {:induction false} LowersLeft(t: Tree)
    requires t.Bin? && Balanced(t.left) && Balanced(t.right)
    requires Height(t.left) - Height(t.right) == 2
    ensures Balanced(Rebalance(t)) && Height(t) - 1 <= Height(Rebalance(t)) <= Height(t)
  {
    var Bin(ll, _, lr) := t.left;
    if Height(ll) < Height(lr) {
      var Bin(lrl, _, lrr) := lr;
      assert Rebalance(t) == Bin(Bin(ll, t.left.frag, lrl), lr.frag, Bin(lrr, t.frag, t.right));
    } else {
      assert Rebalance(t) == Bin(ll, t.left.frag, Bin(lr, t.frag, t.right));
    }
  }

  lemma {:induction false} LowersRight(t: Tree)
    requires t.Bin? && Balanced(t.left) && Balanced(t.right)
    requires Height(t.left) - Height(t.right) == -2
    ensures Balanced(Rebalance(t)) && Height(t) - 1 <= Height(Rebalance(t)) <= Height(t)
  {
    var Bin(rl, _, rr) := t.right;
    if Height(rl) > Height(rr) {
      var Bin(rll, _, rlr) := rl;
      assert Rebalance(t) == Bin(Bin(t.left, t.frag, rll), rl.frag, Bin(rlr, t.right.frag, rr));
    } else {
      assert Rebalance(t) == Bin(Bin(t.left, t.frag, rl), t.right.frag, rr);
    }
  }

  lemma {:induction false} InsertKeepsBalance(t: Tree, f: Fragment)
    requires Balanced(t)
    ensures Balanced(Insert(t, f))
    ensures Height(t) <= Height(Insert(t, f)) <= Height(t) + 1
  {
    match t
    case Tip =>
    case Bin(l, x, r) =>
      if Before(f, x) {
        InsertKeepsBalance(l, f);
        RebalanceRestores(Bin(Insert(l, f), x, r));
      } else {
        InsertKeepsBalance(r, f);
        RebalanceRestores(Bin(l, x, Insert(r, f)));
      }
  }

  lemma {:induction false} RemoveKeepsBalance(t: Tree, start: int, hash: Hash)
    requires Balanced(t)
    ensures Balanced(Remove(t, start, hash))
    ensures Height(t) - 1 <= Height(Remove(t, start, hash)) <= Height(t)
  {
    match t
    case Tip =>
    case Bin(l, x, r) =>
      if hash != x.hash {
        if start < x.start || (start == x.start && hash < x.hash) {
          RemoveKeepsBalance(l, start, hash);
          ShrunkChild(t, Remove(l, start, hash), x, r);
        } else {
          RemoveKeepsBalance(r, start, hash);
          ShrunkChild(t, l, x, Remove(r, start, hash));
        }
      } else if l.Bin? && r.Bin? {
        var s := Least(r);
        RemoveKeepsBalance(r, s.start, s.hash);
        ShrunkChild(t, l, s, Remove(r, s.start, s.hash));
      }
  }

  /** One child of a balanced node has been replaced by a balanced tree at most
      one level lower; rebalancing repairs the node. */
  lemma {:induction false} ShrunkChild(t: Tree, l: Tree, x: Fragment, r: Tree)
    requires Balanced(t) && t.Bin? && Balanced(l) && Balanced(r)
    requires Height(t.left) - 1 <= Height(l) <= Height(t.left)
    requires Height(t.right) - 1 <= Height(r) <= Height(t.right)
    requires l == t.left || r == t.right
    ensures Balanced(Rebalance(Bin(l, x, r)))
    ensures Height(t) - 1 <= Height(Rebalance(Bin(l, x, r))) <= Height(t)
  {
    RebalanceRestores(Bin(l, x, r));
  }
}

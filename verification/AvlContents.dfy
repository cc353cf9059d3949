/** What the interval tree holds: order, the map from hash to fragment that it
    refines, and the height bound, over single operations and whole runs. */
module AvlContents {
  import opened Powers
  import opened Fragments
  import opened AvlTree

  // ------------------------------------------------- reference: a sorted list

  /** Put `f` into an ascending list, after every entry that is not above it. */
  function PutInOrder(s: seq<Fragment>, f: Fragment): seq<Fragment> {
    if s == [] || Before(f, s[0]) then [f] + s
    else [s[0]] + PutInOrder(s[1..], f)
  }

  /** The list without its entries of hash `h`. */
  function Without(s: seq<Fragment>, h: Hash): seq<Fragment> {
    if s == [] then []
    else if s[0].hash == h then Without(s[1..], h)
    else [s[0]] + Without(s[1..], h)
  }

  ghost predicate HasHash(s: seq<Fragment>, h: Hash) {
    exists i :: 0 <= i < |s| && s[i].hash == h
  }

  /** The finite map a list of fragments with distinct hashes stands for. */
  function AsMap(s: seq<Fragment>): map<Hash, Fragment> {
    if s == [] then map[] else AsMap(s[1..])[s[0].hash := s[0]]
  }

  // ------------------------------------------------------------- list algebra

  lemma {:induction false} WithoutConcat(a: seq<Fragment>, b: seq<Fragment>, h: Hash)
    ensures Without(a + b, h) == Without(a, h) + Without(b, h)
  {
    if a == [] {
      assert a + b == b;
    } else {
      assert (a + b)[1..] == a[1..] + b;
      WithoutConcat(a[1..], b, h);
    }
  }

  lemma {:induction false} WithoutAbsent(s: seq<Fragment>, h: Hash)
    requires !HasHash(s, h)
    ensures Without(s, h) == s
  {
    if s != [] {
      assert s[0].hash != h;
      assert forall i :: 0 <= i < |s[1..]| ==> s[1..][i] == s[i + 1];
      WithoutAbsent(s[1..], h);
    }
  }

  /** Splitting an ascending list at one of its entries. */
  lemma AscendingSplit(a: seq<Fragment>, x: Fragment, b: seq<Fragment>)
    requires Ascending(a + [x] + b)
    ensures Ascending(a) && Ascending(b)
    ensures forall i :: 0 <= i < |a| ==> !Before(x, a[i])
    ensures forall i :: 0 <= i < |b| ==> !Before(b[i], x)
  {
    var s := a + [x] + b;
    assert s[|a|] == x;
    assert forall i :: 0 <= i < |a| ==> s[i] == a[i];
    assert forall i :: 0 <= i < |b| ==> s[|a| + 1 + i] == b[i];
  }

  lemma {:induction false} PutInOrderLeft(a: seq<Fragment>, x: Fragment, b: seq<Fragment>, f: Fragment)
    requires Before(f, x)
    ensures PutInOrder(a + [x] + b, f) == PutInOrder(a, f) + [x] + b
  {
    var s := a + [x] + b;
    if a == [] {
      assert s == [x] + b;
    } else {
      assert s[1..] == a[1..] + [x] + b;
      PutInOrderLeft(a[1..], x, b, f);
    }
  }

  lemma {:induction false} PutInOrderRight(a: seq<Fragment>, x: Fragment, b: seq<Fragment>, f: Fragment)
    requires !Before(f, x)
    requires forall i :: 0 <= i < |a| ==> !Before(x, a[i])
    ensures PutInOrder(a + [x] + b, f) == a + [x] + PutInOrder(b, f)
  {
    var s := a + [x] + b;
    if a == [] {
      assert s[1..] == b;
    } else {
      assert s[0] == a[0];
      assert s[1..] == a[1..] + [x] + b;
      PutInOrderRight(a[1..], x, b, f);
    }
  }

  lemma {:induction false} PutInOrderAdds(s: seq<Fragment>, f: Fragment)
    ensures multiset(PutInOrder(s, f)) == multiset(s) + multiset{f}
  {
    if s == [] || Before(f, s[0]) {
      assert multiset([f] + s) == multiset{f} + multiset(s);
    } else {
      PutInOrderAdds(s[1..], f);
      assert s == [s[0]] + s[1..];
    }
  }

  /** `x` may stand in front of `s`. */
  ghost predicate Floor(x: Fragment, s: seq<Fragment>) {
    forall i :: 0 <= i < |s| ==> !Before(s[i], x)
  }

  lemma AscendingCons(x: Fragment, s: seq<Fragment>)
    ensures Ascending([x] + s) <==> Ascending(s) && Floor(x, s)
  {
    var w := [x] + s;
    assert w[0] == x && forall i :: 0 <= i < |s| ==> w[i + 1] == s[i];
    assert forall i :: 0 < i < |w| ==> w[i] == s[i - 1];
  }

  lemma {:induction false} PutKeepsFloor(x: Fragment, s: seq<Fragment>, f: Fragment)
    requires Floor(x, s) && !Before(f, x)
    ensures Floor(x, PutInOrder(s, f))
  {
    if s != [] && !Before(f, s[0]) {
      assert Floor(x, s[1..]);
      PutKeepsFloor(x, s[1..], f);
    }
  }

  lemma {:induction false} PutKeepsAscending(s: seq<Fragment>, f: Fragment)
    requires Ascending(s)
    ensures Ascending(PutInOrder(s, f))
  {
    if s == [] {
    } else if Before(f, s[0]) {
      assert Floor(f, s);
      AscendingCons(f, s);
    } else {
      assert s == [s[0]] + s[1..];
      AscendingCons(s[0], s[1..]);
      PutKeepsAscending(s[1..], f);
      PutKeepsFloor(s[0], s[1..], f);
      AscendingCons(s[0], PutInOrder(s[1..], f));
    }
  }

  // ----------------------------------------------------- insertion, any input

  /** Insertion is list insertion: whatever the tree held, with or without
      equal keys, its in-order sequence gains exactly `f` in its place. */
  lemma {:induction false} InsertIsPutInOrder(t: Tree, f: Fragment)
    requires Ascending(InOrder(t))
    ensures InOrder(Insert(t, f)) == PutInOrder(InOrder(t), f)
    ensures Ascending(InOrder(Insert(t, f)))
    ensures multiset(InOrder(Insert(t, f))) == multiset(InOrder(t)) + multiset{f}
  {
    match t
    case Tip =>
    case Bin(l, x, r) =>
      AscendingSplit(InOrder(l), x, InOrder(r));
      if Before(f, x) {
        InsertIsPutInOrder(l, f);
        RebalanceKeepsOrder(Bin(Insert(l, f), x, r));
        PutInOrderLeft(InOrder(l), x, InOrder(r), f);
      } else {
        InsertIsPutInOrder(r, f);
        RebalanceKeepsOrder(Bin(l, x, Insert(r, f)));
        PutInOrderRight(InOrder(l), x, InOrder(r), f);
      }
    PutInOrderAdds(InOrder(t), f);
    PutKeepsAscending(InOrder(t), f);
  }

  // ------------------------------------------------------------------ removal

  lemma {:induction false} LeastIsFirst(t: Tree)
    requires t.Bin?
    ensures Size(t) > 0 && Least(t) == InOrder(t)[0]
  {
    if t.left.Bin? {
      LeastIsFirst(t.left);
    }
  }

  /** Where the entry of hash `h` is known to start, if there is one. */
  ghost predicate StartsAt(s: seq<Fragment>, start: int, h: Hash) {
    forall i :: 0 <= i < |s| && s[i].hash == h ==> s[i].start == start
  }

  lemma DistinctSplit(a: seq<Fragment>, x: Fragment, b: seq<Fragment>)
    requires DistinctHashes(a + [x] + b)
    ensures DistinctHashes(a) && DistinctHashes(b)
    ensures !HasHash(a, x.hash) && !HasHash(b, x.hash)
  {
    var s := a + [x] + b;
    assert s[|a|] == x;
    assert forall i :: 0 <= i < |a| ==> s[i] == a[i];
    assert forall i :: 0 <= i < |b| ==> s[|a| + 1 + i] == b[i];
  }

  lemma StartsAtSplit(a: seq<Fragment>, x: Fragment, b: seq<Fragment>, start: int, h: Hash)
    requires StartsAt(a + [x] + b, start, h)
    ensures StartsAt(a, start, h) && StartsAt(b, start, h)
  {
    var s := a + [x] + b;
    assert forall i :: 0 <= i < |a| ==> s[i] == a[i];
    assert forall i :: 0 <= i < |b| ==> s[|a| + 1 + i] == b[i];
  }

  lemma {:induction false} WithoutSplit(a: seq<Fragment>, x: Fragment, b: seq<Fragment>, h: Hash)
    ensures Without(a + [x] + b, h)
         == Without(a, h) + (if x.hash == h then [] else [x]) + Without(b, h)
  {
    WithoutConcat(a + [x], b, h);
    WithoutConcat(a, [x], h);
    assert Without([x], h) == if x.hash == h then [] else [x];
  }

  /** Removal deletes exactly the named entry, through every rotation and every
      two-child replacement by the in-order successor. */
  lemma {:induction false} RemoveIsWithout(t: Tree, start: int, h: Hash)
    requires Ascending(InOrder(t)) && DistinctHashes(InOrder(t))
    requires StartsAt(InOrder(t), start, h)
    ensures InOrder(Remove(t, start, h)) == Without(InOrder(t), h)
    decreases t, 1
  {
    match t
    case Tip =>
    case Bin(l, x, r) =>
      var a, b := InOrder(l), InOrder(r);
      AscendingSplit(a, x, b);
      DistinctSplit(a, x, b);
      StartsAtSplit(a, x, b, start, h);
      WithoutSplit(a, x, b, h);
      if h == x.hash {
        RemoveAtRoot(t);
      } else if start < x.start || (start == x.start && h < x.hash) {
        RemoveIsWithout(l, start, h);
        RebalanceKeepsOrder(Bin(Remove(l, start, h), x, r));
        forall i | 0 <= i < |b| ensures b[i].hash != h {
          assert !Before(b[i], x);
        }
        WithoutAbsent(b, h);
      } else {
        RemoveIsWithout(r, start, h);
        RebalanceKeepsOrder(Bin(l, x, Remove(r, start, h)));
        forall i | 0 <= i < |a| ensures a[i].hash != h {
          assert !Before(x, a[i]);
        }
        WithoutAbsent(a, h);
      }
  }

  lemma {:induction false} RemoveAtRoot(t: Tree)
    requires t.Bin?
    requires Ascending(InOrder(t)) && DistinctHashes(InOrder(t))
    ensures InOrder(Remove(t, t.frag.start, t.frag.hash)) == Without(InOrder(t), t.frag.hash)
    decreases t, 0
  {
    var Bin(l, x, r) := t;
    var a, b := InOrder(l), InOrder(r);
    AscendingSplit(a, x, b);
    DistinctSplit(a, x, b);
    WithoutSplit(a, x, b, x.hash);
    WithoutAbsent(a, x.hash);
    WithoutAbsent(b, x.hash);
    if l.Bin? && r.Bin? {
      LeastIsFirst(r);
      var s := b[0];
      assert b == [] + [s] + b[1..];
      DistinctSplit([], s, b[1..]);
      WithoutSplit([], s, b[1..], s.hash);
      WithoutAbsent(b[1..], s.hash);
      assert StartsAt(b, s.start, s.hash);
      RemoveIsWithout(r, s.start, s.hash);
      RebalanceKeepsOrder(Bin(l, s, Remove(r, s.start, s.hash)));
    }
  }

  // ------------------------------------------------- the map the tree refines

  /** What every run of operations keeps. */
  ghost predicate Good(t: Tree) {
    Balanced(t) && Keyed(InOrder(t))
  }

  function MapOf(t: Tree): map<Hash, Fragment> {
    AsMap(InOrder(t))
  }

  lemma {:induction false} AsMapHas(s: seq<Fragment>, h: Hash)
    ensures h in AsMap(s) <==> HasHash(s, h)
    ensures h in AsMap(s) ==> AsMap(s)[h].hash == h && AsMap(s)[h] in s
  {
    if s != [] {
      var rest := s[1..];
      AsMapHas(rest, h);
      if HasHash(rest, h) {
        var i :| 0 <= i < |rest| && rest[i].hash == h;
        assert s[i + 1].hash == h;
      }
      if HasHash(s, h) && s[0].hash != h {
        var i :| 0 <= i < |s| && s[i].hash == h;
        assert rest[i - 1].hash == h;
      }
    }
  }

  lemma {:induction false} AsMapHolds(s: seq<Fragment>, i: nat)
    requires DistinctHashes(s) && i < |s|
    ensures s[i].hash in AsMap(s) && AsMap(s)[s[i].hash] == s[i]
  {
    if i > 0 {
      assert s[1..][i - 1] == s[i];
      AsMapHolds(s[1..], i - 1);
    }
  }

  lemma AsMapLookup(s: seq<Fragment>)
    ensures forall h :: h in AsMap(s) <==> HasHash(s, h)
    ensures forall h :: h in AsMap(s) ==> AsMap(s)[h].hash == h && AsMap(s)[h] in s
    ensures DistinctHashes(s) ==>
      forall i :: 0 <= i < |s| ==> s[i].hash in AsMap(s) && AsMap(s)[s[i].hash] == s[i]
  {
    forall h
      ensures h in AsMap(s) <==> HasHash(s, h)
      ensures h in AsMap(s) ==> AsMap(s)[h].hash == h && AsMap(s)[h] in s
    {
      AsMapHas(s, h);
    }
    if DistinctHashes(s) {
      forall i | 0 <= i < |s| ensures s[i].hash in AsMap(s) && AsMap(s)[s[i].hash] == s[i] {
        AsMapHolds(s, i);
      }
    }
  }

  lemma {:induction false} AsMapPut(s: seq<Fragment>, f: Fragment)
    requires !HasHash(s, f.hash)
    ensures AsMap(PutInOrder(s, f)) == AsMap(s)[f.hash := f]
  {
    if s == [] || Before(f, s[0]) {
      assert ([f] + s)[1..] == s;
    } else {
      var rest := s[1..];
      assert forall i :: 0 <= i < |rest| ==> rest[i] == s[i + 1];
      AsMapPut(rest, f);
      assert s[0].hash != f.hash;
      assert ([s[0]] + PutInOrder(rest, f))[1..] == PutInOrder(rest, f);
    }
  }

  lemma {:induction false} AsMapWithout(s: seq<Fragment>, h: Hash)
    ensures AsMap(Without(s, h)) == AsMap(s) - {h}
  {
    if s != [] {
      AsMapWithout(s[1..], h);
      if s[0].hash != h {
        assert ([s[0]] + Without(s[1..], h))[1..] == Without(s[1..], h);
      }
    }
  }

  /** Strictly ascending with one entry per hash. */
  ghost predicate Keyed(s: seq<Fragment>) {
    StrictlyAscending(s) && DistinctHashes(s)
  }

  ghost predicate Heads(x: Fragment, s: seq<Fragment>) {
    forall i :: 0 <= i < |s| ==> Before(x, s[i]) && x.hash != s[i].hash
  }

  lemma KeyedCons(x: Fragment, s: seq<Fragment>)
    ensures Keyed([x] + s) <==> Keyed(s) && Heads(x, s)
  {
    var w := [x] + s;
    assert w[0] == x && forall i :: 0 <= i < |s| ==> w[i + 1] == s[i];
    assert forall i :: 0 < i < |w| ==> w[i] == s[i - 1];
  }

  lemma {:induction false} WithoutKeepsHeads(x: Fragment, s: seq<Fragment>, h: Hash)
    requires Heads(x, s)
    ensures Heads(x, Without(s, h))
  {
    if s != [] {
      assert Heads(x, s[1..]);
      WithoutKeepsHeads(x, s[1..], h);
    }
  }

  lemma {:induction false} WithoutKeepsKeyed(s: seq<Fragment>, h: Hash)
    requires Keyed(s)
    ensures Keyed(Without(s, h))
  {
    if s != [] {
      assert s == [s[0]] + s[1..];
      KeyedCons(s[0], s[1..]);
      WithoutKeepsKeyed(s[1..], h);
      WithoutKeepsHeads(s[0], s[1..], h);
      KeyedCons(s[0], Without(s[1..], h));
    }
  }

  lemma {:induction false} PutKeepsHeads(x: Fragment, s: seq<Fragment>, f: Fragment)
    requires Heads(x, s) && Before(x, f) && x.hash != f.hash
    ensures Heads(x, PutInOrder(s, f))
  {
    if s != [] && !Before(f, s[0]) {
      assert Heads(x, s[1..]);
      PutKeepsHeads(x, s[1..], f);
    }
  }

  lemma {:induction false} PutKeepsKeyed(s: seq<Fragment>, f: Fragment)
    requires Keyed(s) && !HasHash(s, f.hash)
    ensures Keyed(PutInOrder(s, f))
  {
    if s == [] {
    } else if Before(f, s[0]) {
      forall i | 0 <= i < |s| ensures Before(f, s[i]) && f.hash != s[i].hash {
        assert i == 0 || Before(s[0], s[i]);
      }
      KeyedCons(f, s);
    } else {
      assert s == [s[0]] + s[1..];
      assert forall i :: 0 <= i < |s[1..]| ==> s[1..][i] == s[i + 1];
      KeyedCons(s[0], s[1..]);
      PutKeepsKeyed(s[1..], f);
      assert s[0].hash != f.hash;
      PutKeepsHeads(s[0], s[1..], f);
      KeyedCons(s[0], PutInOrder(s[1..], f));
    }
  }

  lemma KeyedSlice(s: seq<Fragment>, lo: nat, hi: nat)
    requires Keyed(s) && lo <= hi <= |s|
    ensures Keyed(s[lo..hi])
  {
  }

  lemma KeyedAscends(s: seq<Fragment>)
    requires Keyed(s)
    ensures Ascending(s)
  {
  }

  lemma KeyedSplit(t: Tree)
    requires t.Bin? && Keyed(InOrder(t))
    ensures Keyed(InOrder(t.left)) && Keyed(InOrder(t.right))
  {
    var s, n := InOrder(t), Size(t.left);
    assert InOrder(t.left) == s[0..n] && InOrder(t.right) == s[n + 1..|s|];
    KeyedSlice(s, 0, n);
    KeyedSlice(s, n + 1, |s|);
  }

  /** The successor's own key finds it. */
  lemma LeastStartsAt(t: Tree)
    requires t.Bin? && Keyed(InOrder(t))
    ensures StartsAt(InOrder(t), Least(t).start, Least(t).hash)
  {
    LeastIsFirst(t);
  }

  /** A removed hash is gone. */
  lemma RemoveLeavesNone(t: Tree, start: int, h: Hash)
    requires Keyed(InOrder(t)) && StartsAt(InOrder(t), start, h)
    ensures !HasHash(InOrder(Remove(t, start, h)), h)
  {
    RemoveIsWithout(t, start, h);
    AsMapWithout(InOrder(t), h);
    AsMapLookup(Without(InOrder(t), h));
  }

  /** Insertion of an absent hash adds exactly one entry to the map. */
  lemma InsertRefinesPut(t: Tree, f: Fragment)
    requires Good(t) && f.hash !in MapOf(t)
    ensures Good(Insert(t, f))
    ensures MapOf(Insert(t, f)) == MapOf(t)[f.hash := f]
  {
    assert !HasHash(InOrder(t), f.hash) by { AsMapLookup(InOrder(t)); }
    InsertKeepsBalance(t, f);
    KeyedAscends(InOrder(t));
    InsertIsPutInOrder(t, f);
    PutKeepsKeyed(InOrder(t), f);
    AsMapPut(InOrder(t), f);
  }

  /** Insertion at a glance, for any tree in order and for a good one. */
  lemma InsertSummary(t: Tree, f: Fragment)
    requires Balanced(t) && Ascending(InOrder(t))
    ensures Balanced(Insert(t, f)) && Ascending(InOrder(Insert(t, f)))
    ensures InOrder(Insert(t, f)) == PutInOrder(InOrder(t), f)
    ensures Good(t) && f.hash !in MapOf(t) ==>
      Good(Insert(t, f)) && MapOf(Insert(t, f)) == MapOf(t)[f.hash := f]
  {
    InsertKeepsBalance(t, f);
    InsertIsPutInOrder(t, f);
    if Good(t) && f.hash !in MapOf(t) {
      InsertRefinesPut(t, f);
    }
  }

  /** Removal of a present hash deletes exactly that entry from the map. */
  lemma RemoveRefinesDrop(t: Tree, h: Hash)
    requires Good(t) && h in MapOf(t)
    ensures Good(Remove(t, MapOf(t)[h].start, h))
    ensures MapOf(Remove(t, MapOf(t)[h].start, h)) == MapOf(t) - {h}
  {
    var s := InOrder(t);
    AsMapLookup(s);
    RemoveKeepsBalance(t, MapOf(t)[h].start, h);
    assert StartsAt(s, MapOf(t)[h].start, h);
    RemoveIsWithout(t, MapOf(t)[h].start, h);
    WithoutKeepsKeyed(s, h);
    AsMapWithout(s, h);
  }

  /** Removal at a glance, as the heap tree needs it. */
  lemma RemoveSummary(t: Tree, h: Hash)
    requires Good(t) && h in MapOf(t)
    ensures var start := MapOf(t)[h].start;
      && StartsAt(InOrder(t), start, h)
      && Good(Remove(t, start, h)) && Ascending(InOrder(Remove(t, start, h)))
      && MapOf(Remove(t, start, h)) == MapOf(t) - {h}
  {
    AsMapLookup(InOrder(t));
    RemoveRefinesDrop(t, h);
  }

  // ------------------------------------------------------------ whole runs

  datatype Op = Put(frag: Fragment) | Drop(hash: Hash)

  /** One public call on the tree. */
  function Apply(t: Tree, op: Op): Tree {
    match op
    case Put(f) => Insert(t, f)
    case Drop(h) => if h in MapOf(t) then (AsMapLookup(InOrder(t)); Remove(t, MapOf(t)[h].start, h)) else t
  }

  function Run(ops: seq<Op>): Tree {
    if ops == [] then Tip else Apply(Run(ops[..|ops| - 1]), ops[|ops| - 1])
  }

  /** The same run on a plain finite map. */
  function MapRun(ops: seq<Op>): map<Hash, Fragment> {
    if ops == [] then map[]
    else
      var m := MapRun(ops[..|ops| - 1]);
      match ops[|ops| - 1]
      case Put(f) => m[f.hash := f]
      case Drop(h) => m - {h}
  }

  /** Every insert of the run is of a hash that is absent at that point. */
  ghost predicate PutsAbsent(ops: seq<Op>) {
    forall k :: 0 <= k < |ops| && ops[k].Put? ==> ops[k].frag.hash !in MapRun(ops[..k])
  }

  lemma StepRefinesMap(t: Tree, op: Op)
    requires Good(t)
    requires op.Put? ==> op.frag.hash !in MapOf(t)
    ensures Good(Apply(t, op))
    ensures MapOf(Apply(t, op)) == match op case Put(f) => MapOf(t)[f.hash := f] case Drop(h) => MapOf(t) - {h}
  {
    match op
    case Put(f) => InsertRefinesPut(t, f);
    case Drop(h) =>
      if h in MapOf(t) {
        RemoveRefinesDrop(t, h);
      } else {
        assert MapOf(t) - {h} == MapOf(t);
      }
  }

  /** After every run of inserts of absent hashes and removes, the tree is a
      balanced strict search tree holding exactly the map's entries. */
  lemma {:induction false} RunRefinesMap(ops: seq<Op>)
    requires PutsAbsent(ops)
    ensures Good(Run(ops))
    ensures MapOf(Run(ops)) == MapRun(ops)
  {
    if ops != [] {
      var n := |ops| - 1;
      forall k | 0 <= k < n && ops[..n][k].Put?
        ensures ops[..n][k].frag.hash !in MapRun(ops[..n][..k])
      {
        assert ops[..n][..k] == ops[..k];
      }
      RunRefinesMap(ops[..n]);
      StepRefinesMap(Run(ops[..n]), ops[n]);
    }
  }

  /** The height after any run is at most logarithmic in the number stored:
      Fib(height + 2) - 1 entries at least, and so 2^(height/2) - 1. */
  lemma RunHeight(ops: seq<Op>)
    requires PutsAbsent(ops)
    ensures Size(Run(ops)) >= Fib(Height(Run(ops)) + 2) - 1
    ensures Pow2(Height(Run(ops)) / 2) <= Size(Run(ops)) + 1
  {
    RunRefinesMap(ops);
    BalancedIsLarge(Run(ops));
    FibGrows(Height(Run(ops)));
  }

  // ------------------------------------------------------------ height bound

  function Fib(n: nat): nat {
    if n < 2 then n else Fib(n - 1) + Fib(n - 2)
  }

  lemma {:induction false} FibMonotone(m: nat, n: nat)
    requires m <= n
    ensures Fib(m) <= Fib(n)
    decreases n
  {
    if m < n {
      FibMonotone(m, n - 1);
    }
  }

  lemma {:induction false} BalancedIsLarge(t: Tree)
    requires Balanced(t)
    ensures Size(t) >= Fib(Height(t) + 2) - 1
  {
    match t
    case Tip =>
    case Bin(l, _, r) =>
      BalancedIsLarge(l);
      BalancedIsLarge(r);
      FibMonotone(Height(t), Height(l) + 2);
      FibMonotone(Height(t), Height(r) + 2);
      assert Size(t) == Size(l) + 1 + Size(r);
  }

  lemma {:induction false} FibGrows(h: nat)
    ensures Pow2(h / 2) <= Fib(h + 2)
  {
    if h >= 2 {
      FibGrows(h - 2);
      assert h / 2 == (h - 2) / 2 + 1;
      assert Fib(h + 2) == Fib(h + 1) + Fib(h);
      FibMonotone(h, h + 1);
    }
  }

  // ------------------------------------- inserting a hash that is present

  function CountHash(s: seq<Fragment>, h: Hash): nat {
    if s == [] then 0 else (if s[0].hash == h then 1 else 0) + CountHash(s[1..], h)
  }

  lemma {:induction false} CountPut(s: seq<Fragment>, f: Fragment, h: Hash)
    ensures CountHash(PutInOrder(s, f), h) == CountHash(s, h) + if f.hash == h then 1 else 0
  {
    if s == [] || Before(f, s[0]) {
      assert ([f] + s)[1..] == s;
    } else {
      CountPut(s[1..], f, h);
      assert ([s[0]] + PutInOrder(s[1..], f))[1..] == PutInOrder(s[1..], f);
    }
  }

  lemma {:induction false} CountZero(s: seq<Fragment>, h: Hash)
    ensures CountHash(s, h) == 0 <==> !HasHash(s, h)
  {
    if s != [] {
      CountZero(s[1..], h);
      assert forall i :: 0 <= i < |s[1..]| ==> s[1..][i] == s[i + 1];
      if s[0].hash == h { assert HasHash(s, h); }
      if HasHash(s, h) && s[0].hash != h {
        var i :| 0 <= i < |s| && s[i].hash == h;
        assert s[1..][i - 1].hash == h;
      }
    }
  }

  lemma {:induction false} CountWithout(s: seq<Fragment>, h: Hash)
    ensures CountHash(Without(s, h), h) == 0
  {
    if s != [] {
      CountWithout(s[1..], h);
    }
  }

  /** The contents after an insert that overwrites: whatever was under the hash is gone,
      and the new fragment stands in its place in order. */
  function Overwritten(s: seq<Fragment>, f: Fragment): seq<Fragment> { PutInOrder(Without(s, f.hash), f) }

  /** Insertion never overwrites: the contents grow by one entry of the hash, and they are
      those of an overwriting insert exactly when the hash was absent before. */
  lemma InsertIsPutIffAbsent(t: Tree, f: Fragment)
    requires Ascending(InOrder(t))
    ensures CountHash(InOrder(Insert(t, f)), f.hash) == CountHash(InOrder(t), f.hash) + 1
    ensures InOrder(Insert(t, f)) == Overwritten(InOrder(t), f) <==> f.hash !in MapOf(t)
  {
    var s := InOrder(t);
    assert InOrder(Insert(t, f)) == PutInOrder(s, f) by { InsertIsPutInOrder(t, f); }
    CountPut(s, f, f.hash);
    CountPut(Without(s, f.hash), f, f.hash);
    CountWithout(s, f.hash);
    CountZero(s, f.hash);
    AsMapHas(s, f.hash);
    if !HasHash(s, f.hash) {
      WithoutAbsent(s, f.hash);
    }
  }

  /** Two inserts of one hash at different spans leave both entries. */
  lemma SecondInsertKeepsTheFirst(a: Fragment, b: Fragment)
    requires a.hash == b.hash && a.start < b.start
    ensures InOrder(Insert(Insert(Tip, a), b)) == [a, b]
  {
  }
}

/** The pruned overlap and adjacency searches, against a linear scan. */
module AvlQueries {
  import opened Fragments
  import opened AvlTree
  import opened AvlContents

  /** How often `f` occurs in `s`. */
  function Copies(s: seq<Fragment>, f: Fragment): nat {
    multiset(s)[f]
  }

  // ------------------------------------------------------------------ overlap

  predicate Overlaps(f: Fragment, start: int, end: int) {
    f.start <= end && f.end >= start
  }

  /** A span and a query, neither empty, overlap exactly when they have a token in common. */
  lemma OverlapsIff(f: Fragment, start: int, end: int)
    requires f.start <= f.end && start <= end
    ensures Overlaps(f, start, end) <==> exists i :: InSpan(i, f.start, f.end) && InSpan(i, start, end)
  {
    if Overlaps(f, start, end) {
      var i := if f.start < start then start else f.start;
      assert InSpan(i, f.start, f.end) && InSpan(i, start, end);
    }
  }

  predicate InSpan(i: int, start: int, end: int) { start <= i <= end }

  /** The search: skips a left subtree that ends too early, and a right subtree
      once starts are past the query. */
  function FindOverlapping(t: Tree, start: int, end: int): seq<Fragment> {
    match t
    case Tip => []
    case Bin(l, x, r) =>
      (if l.Bin? && MaxEnd(l) >= start then FindOverlapping(l, start, end) else [])
      + (if Overlaps(x, start, end) then [x] else [])
      + (if x.start <= end then FindOverlapping(r, start, end) else [])
  }

  /** The reference: look at every fragment. */
  function ScanOverlapping(s: seq<Fragment>, start: int, end: int): seq<Fragment> {
    if s == [] then []
    else (if Overlaps(s[0], start, end) then [s[0]] else []) + ScanOverlapping(s[1..], start, end)
  }

  lemma {:induction false} ScanOverlappingConcat(a: seq<Fragment>, b: seq<Fragment>, start: int, end: int)
    ensures ScanOverlapping(a + b, start, end) == ScanOverlapping(a, start, end) + ScanOverlapping(b, start, end)
  {
    if a == [] {
      assert a + b == b;
    } else {
      assert (a + b)[1..] == a[1..] + b;
      ScanOverlappingConcat(a[1..], b, start, end);
    }
  }

  lemma {:induction false} ScanOverlappingNone(s: seq<Fragment>, start: int, end: int)
    requires forall i :: 0 <= i < |s| ==> !Overlaps(s[i], start, end)
    ensures ScanOverlapping(s, start, end) == []
  {
    if s != [] {
      ScanOverlappingNone(s[1..], start, end);
    }
  }

  /** Pruning loses nothing: the search returns every overlapping fragment, each
      as often as it is stored, in ascending key order. */
  lemma {:induction false} FindOverlappingIsScan(t: Tree, start: int, end: int)
    requires Ascending(InOrder(t))
    ensures FindOverlapping(t, start, end) == ScanOverlapping(InOrder(t), start, end)
  {
    match t
    case Tip =>
    case Bin(l, x, r) =>
      var a, b := InOrder(l), InOrder(r);
      AscendingSplit(a, x, b);
      FindOverlappingIsScan(l, start, end);
      FindOverlappingIsScan(r, start, end);
      MaxEndIsMaximum(l);
      ScanOverlappingConcat(a + [x], b, start, end);
      ScanOverlappingConcat(a, [x], start, end);
      assert ScanOverlapping([x], start, end) == if Overlaps(x, start, end) then [x] else [];
      if !(l.Bin? && MaxEnd(l) >= start) {
        ScanOverlappingNone(a, start, end);
      }
      if x.start > end {
        forall i | 0 <= i < |b| ensures !Overlaps(b[i], start, end) {
          assert !Before(b[i], x);
        }
        ScanOverlappingNone(b, start, end);
      }
  }

  /** What the scan contains, without reference to how it is computed. */
  lemma {:induction false} ScanOverlappingExact(s: seq<Fragment>, start: int, end: int, f: Fragment)
    ensures Copies(ScanOverlapping(s, start, end), f) == if Overlaps(f, start, end) then Copies(s, f) else 0
  {
    if s != [] {
      assert s == [s[0]] + s[1..];
      ScanOverlappingExact(s[1..], start, end, f);
    }
  }

  lemma {:induction false} ScanKeepsFloor(x: Fragment, s: seq<Fragment>, start: int, end: int)
    requires Floor(x, s)
    ensures Floor(x, ScanOverlapping(s, start, end))
  {
    if s != [] {
      assert Floor(x, s[1..]);
      ScanKeepsFloor(x, s[1..], start, end);
    }
  }

  lemma {:induction false} ScanAscends(s: seq<Fragment>, start: int, end: int)
    requires Ascending(s)
    ensures Ascending(ScanOverlapping(s, start, end))
  {
    if s != [] {
      assert s == [s[0]] + s[1..];
      AscendingCons(s[0], s[1..]);
      ScanAscends(s[1..], start, end);
      ScanKeepsFloor(s[0], s[1..], start, end);
      AscendingCons(s[0], ScanOverlapping(s[1..], start, end));
    }
  }

  // ---------------------------------------------------------------- adjacency

  /** The entries one visited fragment contributes: one for each passed test. */
  function Hits(f: Fragment, position: int, gap: int): seq<Fragment> {
    (if 0 <= f.start - position <= gap then [f] else [])
    + (if 0 <= position - f.end <= gap then [f] else [])
  }

  function FindAdjacent(t: Tree, position: int, gap: int): seq<Fragment>
    decreases t, 2
  {
    match t
    case Tip => []
    case Bin(_, x, _) => Hits(x, position, gap) + AdjacentBelow(t, position, gap)
  }

  /** The part of the search below a node: skips a left subtree that ends before
      the gap, and a right subtree once starts are past it. */
  function AdjacentBelow(t: Tree, position: int, gap: int): seq<Fragment>
    requires t.Bin?
    decreases t, 1
  {
    AdjacentLeft(t, position, gap) + AdjacentRight(t, position, gap)
  }

  function AdjacentLeft(t: Tree, position: int, gap: int): seq<Fragment>
    requires t.Bin?
    decreases t, 0
  {
    if t.left.Bin? && MaxEnd(t.left) >= position - gap then FindAdjacent(t.left, position, gap) else []
  }

  function AdjacentRight(t: Tree, position: int, gap: int): seq<Fragment>
    requires t.Bin?
    decreases t, 0
  {
    if t.frag.start <= position + gap then FindAdjacent(t.right, position, gap) else []
  }

  function ScanAdjacent(s: seq<Fragment>, position: int, gap: int): seq<Fragment> {
    if s == [] then [] else Hits(s[0], position, gap) + ScanAdjacent(s[1..], position, gap)
  }

  function PreOrder(t: Tree): seq<Fragment> {
    match t
    case Tip => []
    case Bin(l, x, r) => [x] + PreOrder(l) + PreOrder(r)
  }

  lemma {:induction false} PreOrderIsPermutation(t: Tree)
    ensures multiset(PreOrder(t)) == multiset(InOrder(t))
  {
    match t
    case Tip =>
    case Bin(l, x, r) =>
      PreOrderIsPermutation(l);
      PreOrderIsPermutation(r);
  }

  lemma {:induction false} ScanAdjacentConcat(a: seq<Fragment>, b: seq<Fragment>, position: int, gap: int)
    ensures ScanAdjacent(a + b, position, gap) == ScanAdjacent(a, position, gap) + ScanAdjacent(b, position, gap)
  {
    if a == [] {
      assert a + b == b;
    } else {
      assert (a + b)[1..] == a[1..] + b;
      ScanAdjacentConcat(a[1..], b, position, gap);
    }
  }

  lemma {:induction false} ScanAdjacentNone(s: seq<Fragment>, position: int, gap: int)
    requires forall i :: 0 <= i < |s| ==> Hits(s[i], position, gap) == []
    ensures ScanAdjacent(s, position, gap) == []
  {
    if s != [] {
      ScanAdjacentNone(s[1..], position, gap);
    }
  }

  lemma InPreOrder(t: Tree, i: nat)
    requires i < |PreOrder(t)|
    ensures exists j :: 0 <= j < Size(t) && InOrder(t)[j] == PreOrder(t)[i]
  {
    PreOrderIsPermutation(t);
    assert PreOrder(t)[i] in multiset(PreOrder(t));
    assert PreOrder(t)[i] in InOrder(t);
  }

  /** Nothing adjacent is skipped on the left. */
  lemma NoneEndsNear(l: Tree, position: int, gap: int)
    requires MaxEnd(l) < position - gap || l.Tip?
    ensures ScanAdjacent(PreOrder(l), position, gap) == []
  {
    MaxEndIsMaximum(l);
    forall i | 0 <= i < |PreOrder(l)| ensures Hits(PreOrder(l)[i], position, gap) == [] {
      InPreOrder(l, i);
    }
    ScanAdjacentNone(PreOrder(l), position, gap);
  }

  /** Nothing adjacent is skipped on the right. */
  lemma NoneStartsNear(x: Fragment, r: Tree, position: int, gap: int)
    requires Floor(x, InOrder(r)) && x.start > position + gap
    ensures ScanAdjacent(PreOrder(r), position, gap) == []
  {
    forall i | 0 <= i < |PreOrder(r)| ensures Hits(PreOrder(r)[i], position, gap) == [] {
      InPreOrder(r, i);
    }
    ScanAdjacentNone(PreOrder(r), position, gap);
  }

  /** For every gap, negative ones included, pruning loses nothing: the search
      is the scan of the tree in pre-order. */
  lemma {:induction false} FindAdjacentIsScan(t: Tree, position: int, gap: int)
    requires Ascending(InOrder(t))
    ensures FindAdjacent(t, position, gap) == ScanAdjacent(PreOrder(t), position, gap)
  {
    match t
    case Tip =>
    case Bin(l, x, r) =>
      AscendingSplit(InOrder(l), x, InOrder(r));
      FindAdjacentIsScan(l, position, gap);
      FindAdjacentIsScan(r, position, gap);
      if !(l.Bin? && MaxEnd(l) >= position - gap) {
        NoneEndsNear(l, position, gap);
      }
      if x.start > position + gap {
        NoneStartsNear(x, r, position, gap);
      }
      assert AdjacentLeft(t, position, gap) == ScanAdjacent(PreOrder(l), position, gap);
      assert AdjacentRight(t, position, gap) == ScanAdjacent(PreOrder(r), position, gap);
      assert FindAdjacent(t, position, gap) == Hits(x, position, gap) + AdjacentBelow(t, position, gap);
      ScanOfPreOrder(t, position, gap);
  }

  lemma {:induction false} ScanOfPreOrder(t: Tree, position: int, gap: int)
    requires t.Bin?
    ensures ScanAdjacent(PreOrder(t), position, gap) == Hits(t.frag, position, gap)
      + (ScanAdjacent(PreOrder(t.left), position, gap) + ScanAdjacent(PreOrder(t.right), position, gap))
  {
    assert PreOrder(t) == [t.frag] + (PreOrder(t.left) + PreOrder(t.right));
    assert PreOrder(t)[1..] == PreOrder(t.left) + PreOrder(t.right);
    ScanAdjacentConcat(PreOrder(t.left), PreOrder(t.right), position, gap);
  }

  lemma CopiesConcat(a: seq<Fragment>, b: seq<Fragment>, f: Fragment)
    ensures Copies(a + b, f) == Copies(a, f) + Copies(b, f)
  {
  }

  lemma CopiesCons(s: seq<Fragment>, f: Fragment)
    requires s != []
    ensures Copies(s, f) == Copies(s[1..], f) + if s[0] == f then 1 else 0
  {
    assert s == [s[0]] + s[1..];
  }

  lemma OneMore(n: nat, k: nat)
    ensures (n + 1) * k == n * k + k
  {
  }

  lemma CopiesOfHits(x: Fragment, position: int, gap: int, f: Fragment)
    ensures Copies(Hits(x, position, gap), f) == if x == f then |Hits(f, position, gap)| else 0
  {
  }

  lemma {:induction false} ScanAdjacentExact(s: seq<Fragment>, position: int, gap: int, f: Fragment)
    ensures Copies(ScanAdjacent(s, position, gap), f) == Copies(s, f) * |Hits(f, position, gap)|
  {
    if s != [] {
      ScanAdjacentExact(s[1..], position, gap, f);
      CopiesConcat(Hits(s[0], position, gap), ScanAdjacent(s[1..], position, gap), f);
      CopiesOfHits(s[0], position, gap, f);
      CopiesCons(s, f);
      OneMore(Copies(s[1..], f), |Hits(f, position, gap)|);
    }
  }

  /** Each stored copy of a fragment is reported once per adjacency test that it
      passes. */
  lemma FindAdjacentExact(t: Tree, position: int, gap: int, f: Fragment)
    requires Ascending(InOrder(t))
    ensures Copies(FindAdjacent(t, position, gap), f) == Copies(InOrder(t), f) * |Hits(f, position, gap)|
  {
    FindAdjacentIsScan(t, position, gap);
    PreOrderIsPermutation(t);
    ScanAdjacentExact(PreOrder(t), position, gap, f);
  }

  /** A fragment is reported twice exactly when it is the single position asked
      about. */
  lemma ReportedTwiceIff(f: Fragment, position: int, gap: int)
    ensures |Hits(f, position, gap)| == 2 <==> f.start == f.end == position && gap >= 0
    ensures |Hits(f, position, gap)| == 1 <==>
      (0 <= f.start - position <= gap) != (0 <= position - f.end <= gap)
  {
  }
}

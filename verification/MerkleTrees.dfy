/** Building a Merkle tree from an inventory, comparing inventories by root, and the
    leaf-level difference of two trees. */
module MerkleTrees {
  import opened Fragments
  import opened Merkle
  import opened Powers

  // --- The order of pairs -------------------------------------------------------

  /** Strings compare by code point, a proper prefix first. */
  predicate StringLe(a: string, b: string) {
    a == "" || (b != "" && (a[0] < b[0] || (a[0] == b[0] && StringLe(a[1..], b[1..]))))
  }

  predicate PairLe(p: Pair, q: Pair) { if p.0 == q.0 then StringLe(p.1, q.1) else StringLe(p.0, q.0) }

  lemma {:induction false} StringTotal(a: string, b: string)
    ensures StringLe(a, b) || StringLe(b, a)
    ensures StringLe(a, b) && StringLe(b, a) ==> a == b
  {
    if a != "" && b != "" {
      StringTotal(a[1..], b[1..]);
      assert a == [a[0]] + a[1..] && b == [b[0]] + b[1..];
    }
  }

  lemma {:induction false} StringTransitive(a: string, b: string, c: string)
    requires StringLe(a, b) && StringLe(b, c)
    ensures StringLe(a, c)
  {
    if a != "" && a[0] == b[0] && b[0] == c[0] {
      StringTransitive(a[1..], b[1..], c[1..]);
    }
  }

  /** One string is before another exactly when it starts it, or has the smaller character
      where they first differ. */
  lemma {:induction false} StringLeIff(a: string, b: string)
    ensures StringLe(a, b) <==> a <= b || Smaller(a, b)
  {
    if a != "" && b != "" && a[0] == b[0] {
      StringLeIff(a[1..], b[1..]);
      SmallerTails(a, b);
    } else if a != "" && b != "" {
      assert FirstDifference(a, b, 0);
    }
  }

  ghost predicate Smaller(a: string, b: string) { exists k :: FirstDifference(a, b, k) && a[k] < b[k] }

  lemma DifferenceTails(a: string, b: string, k: nat)
    requires a != "" && b != "" && a[0] == b[0]
    ensures FirstDifference(a[1..], b[1..], k) <==> FirstDifference(a, b, k + 1)
  {
    if k < |a| - 1 && k < |b| - 1 {
      assert a[..k + 1] == [a[0]] + a[1..][..k] && b[..k + 1] == [b[0]] + b[1..][..k];
      assert a[..k + 1][1..] == a[1..][..k] && b[..k + 1][1..] == b[1..][..k];
    }
  }

  lemma SmallerTails(a: string, b: string)
    requires a != "" && b != "" && a[0] == b[0]
    ensures Smaller(a[1..], b[1..]) <==> Smaller(a, b)
    ensures a[1..] <= b[1..] <==> a <= b
  {
    assert a == [a[0]] + a[1..] && b == [b[0]] + b[1..];
    if Smaller(a[1..], b[1..]) {
      var k :| FirstDifference(a[1..], b[1..], k) && a[1..][k] < b[1..][k];
      DifferenceTails(a, b, k);
    }
    if Smaller(a, b) {
      var k :| FirstDifference(a, b, k) && a[k] < b[k];
      DifferenceTails(a, b, k - 1);
    }
  }

  predicate FirstDifference(a: string, b: string, k: int) {
    0 <= k < |a| && k < |b| && a[k] != b[k] && a[..k] == b[..k]
  }

  lemma PairTotal(p: Pair, q: Pair)
    ensures PairLe(p, q) || PairLe(q, p)
    ensures PairLe(p, q) && PairLe(q, p) ==> p == q
  {
    StringTotal(p.0, q.0);
    StringTotal(p.1, q.1);
  }

  lemma PairTransitive(p: Pair, q: Pair, r: Pair)
    requires PairLe(p, q) && PairLe(q, r)
    ensures PairLe(p, r)
  {
    if p.0 == q.0 == r.0 {
      StringTransitive(p.1, q.1, r.1);
    } else if p.0 != q.0 && q.0 != r.0 {
      StringTransitive(p.0, q.0, r.0);
      StringTotal(p.0, q.0);
    }
  }

  /** Sorted, from the back: the last pair is not below any earlier one. */
  predicate Sorted(items: seq<Pair>) {
    items == [] || (Sorted(items[..|items| - 1]) && AllLe(items[..|items| - 1], items[|items| - 1]))
  }

  predicate AllLe(items: seq<Pair>, p: Pair) { forall q :: q in items ==> PairLe(q, p) }

  function Insert(items: seq<Pair>, p: Pair): (r: seq<Pair>)
    ensures multiset(r) == multiset(items) + multiset{p}
  {
    if items == [] || PairLe(items[|items| - 1], p) then items + [p]
    else
      assert items == items[..|items| - 1] + [items[|items| - 1]];
      Insert(items[..|items| - 1], p) + [items[|items| - 1]]
  }

  function Sort(items: seq<Pair>): (r: seq<Pair>)
    ensures multiset(r) == multiset(items)
  {
    if items == [] then []
    else
      assert items == items[..|items| - 1] + [items[|items| - 1]];
      Insert(Sort(items[..|items| - 1]), items[|items| - 1])
  }

  lemma SortedSnoc(items: seq<Pair>, p: Pair)
    requires Sorted(items) && AllLe(items, p)
    ensures Sorted(items + [p])
  {
    assert (items + [p])[..|items|] == items;
  }

  lemma AllLeSnoc(items: seq<Pair>, last: Pair, p: Pair)
    requires AllLe(items, last) && PairLe(last, p)
    ensures AllLe(items + [last], p)
  {
    forall q | q in items + [last] ensures PairLe(q, p) {
      if q in items {
        PairTransitive(q, last, p);
      }
    }
  }

  lemma InsertAllLe(items: seq<Pair>, p: Pair, last: Pair)
    requires AllLe(items, last) && PairLe(p, last)
    ensures AllLe(Insert(items, p), last)
  {
    forall q | q in Insert(items, p) ensures PairLe(q, last) {
      assert q in multiset(Insert(items, p));
    }
  }

  lemma {:induction false} InsertSorts(items: seq<Pair>, p: Pair)
    requires Sorted(items)
    ensures Sorted(Insert(items, p))
  {
    if items == [] {
      SortedSnoc([], p);
    } else {
      var init, last := items[..|items| - 1], items[|items| - 1];
      PairTotal(last, p);
      if PairLe(last, p) {
        assert items == init + [last];
        AllLeSnoc(init, last, p);
        SortedSnoc(items, p);
      } else {
        InsertSorts(init, p);
        InsertAllLe(init, p, last);
        SortedSnoc(Insert(init, p), last);
      }
    }
  }

  lemma {:induction false} SortSorts(items: seq<Pair>)
    ensures Sorted(Sort(items))
  {
    if items != [] {
      SortSorts(items[..|items| - 1]);
      InsertSorts(Sort(items[..|items| - 1]), items[|items| - 1]);
    }
  }

  /** The last of a sorted inventory is its greatest pair. */
  lemma LastIsGreatest(items: seq<Pair>, p: Pair)
    requires Sorted(items) && items != [] && p in multiset(items)
    ensures PairLe(p, items[|items| - 1])
  {
    var init, last := items[..|items| - 1], items[|items| - 1];
    assert items == init + [last];
    PairTotal(last, last);
  }

  lemma WithoutLast(items: seq<Pair>)
    requires items != []
    ensures multiset(items[..|items| - 1]) == multiset(items) - multiset{items[|items| - 1]}
    ensures items[|items| - 1] in multiset(items)
    ensures |multiset(items)| == |items|
  {
    assert items == items[..|items| - 1] + [items[|items| - 1]];
  }

  lemma SameGreatest(a: seq<Pair>, b: seq<Pair>)
    requires Sorted(a) && Sorted(b) && multiset(a) == multiset(b) && a != [] && b != []
    ensures a[|a| - 1] == b[|b| - 1] && multiset(a[..|a| - 1]) == multiset(b[..|b| - 1])
  {
    WithoutLast(a);
    WithoutLast(b);
    LastIsGreatest(a, b[|b| - 1]);
    LastIsGreatest(b, a[|a| - 1]);
    PairTotal(a[|a| - 1], b[|b| - 1]);
  }

  /** A sorted inventory is determined by the pairs it holds. */
  lemma {:induction false} SortedIsUnique(a: seq<Pair>, b: seq<Pair>)
    requires Sorted(a) && Sorted(b) && multiset(a) == multiset(b)
    ensures a == b
  {
    assert |a| == |multiset(a)| == |multiset(b)| == |b|;
    if a != [] {
      SameGreatest(a, b);
      SortedIsUnique(a[..|a| - 1], b[..|b| - 1]);
      Rejoin(a, b);
    }
  }

  lemma Rejoin(a: seq<Pair>, b: seq<Pair>)
    requires a != [] && b != [] && a[..|a| - 1] == b[..|b| - 1] && a[|a| - 1] == b[|b| - 1]
    ensures a == b
  {
    assert a == a[..|a| - 1] + [a[|a| - 1]] && b == b[..|b| - 1] + [b[|b| - 1]];
  }

  // --- Comparing inventories by root --------------------------------------------

  /** No pair is listed twice. */
  ghost predicate Distinct(items: seq<Pair>) { forall p :: multiset(items)[p] <= 1 }

  ghost predicate SameMembers(a: seq<Pair>, b: seq<Pair>) { forall p :: p in a <==> p in b }

  /** Two inventories of the same pairs, listed in any order, have the same root. */
  lemma SamePairsSameRoot(a: seq<Pair>, b: seq<Pair>)
    requires multiset(a) == multiset(b)
    ensures RootOf(Sort(a)) == RootOf(Sort(b))
  {
    SortSorts(a);
    SortSorts(b);
    SortedIsUnique(Sort(a), Sort(b));
  }

  lemma ReadNode<T>(a: seq<T>, j: nat)
    requires j < |a|
    ensures Read(a, j) == a[j] && j < Pow2(Levels(|a|))
  {
    SourceOfNode(|a|, j);
  }

  lemma ReadAlikeMembers<T(!new)>(a: seq<T>, b: seq<T>)
    requires a != [] && b != [] && ReadAlike(a, b)
    ensures forall t :: t in a <==> t in b
  {
    forall i | 0 <= i < |a| ensures a[i] in b {
      ReadNode(a, i);
    }
    forall i | 0 <= i < |b| ensures b[i] in a {
      ReadNode(b, i);
    }
  }

  lemma SortMembers(items: seq<Pair>)
    ensures forall p :: p in Sort(items) <==> p in items
  {
    assert forall p :: p in Sort(items) <==> p in multiset(Sort(items));
    assert forall p :: p in items <==> p in multiset(items);
  }

  /** The root determines the inventory: two inventories of distinct pairs, of any
      sizes, have equal roots exactly when they hold the same pairs. */
  lemma EqualRootsIffSamePairs(a: seq<Pair>, b: seq<Pair>)
    requires Distinct(a) && Distinct(b) && Unambiguous(a, b)
    ensures RootOf(Sort(a)) == RootOf(Sort(b)) <==> SameMembers(a, b)
  {
    SortMembers(a);
    SortMembers(b);
    if SameMembers(a, b) {
      forall p ensures multiset(a)[p] == multiset(b)[p] {
        assert (p in multiset(a) <==> p in a) && (p in multiset(b) <==> p in b);
      }
      assert multiset(a) == multiset(b);
      SamePairsSameRoot(a, b);
    }
    if RootOf(Sort(a)) == RootOf(Sort(b)) {
      EqualRootsMembers(Sort(a), Sort(b));
      assert SameMembers(Sort(a), Sort(b));
    }
  }

  /** Every pair of `a` has its leaf text in `b`. */
  ghost predicate LinesWithin(a: seq<Pair>, b: seq<Pair>) {
    forall p :: p in a ==> exists q :: q in b && Line(p) == Line(q)
  }

  lemma LinesMembers(a: seq<Pair>, b: seq<Pair>)
    requires forall s :: s in Lines(a) ==> s in Lines(b)
    ensures LinesWithin(a, b)
  {
    forall p | p in a ensures exists q :: q in b && Line(p) == Line(q) {
      var i :| 0 <= i < |a| && a[i] == p;
      assert Lines(a)[i] in Lines(b);
      var j :| 0 <= j < |b| && Lines(b)[j] == Line(p);
      assert b[j] in b;
    }
  }

  /** Whatever is repeated, equal roots mean the same set of leaf texts, and the same set
      of pairs where the texts are not ambiguous. */
  lemma EqualRootsMembers(a: seq<Pair>, b: seq<Pair>)
    requires RootOf(a) == RootOf(b)
    ensures LinesWithin(a, b) && LinesWithin(b, a)
    ensures Unambiguous(a, b) ==> SameMembers(a, b)
  {
    if a != [] && b != [] {
      EqualRootsIff(a, b);
      ReadAlikeMembers(Lines(a), Lines(b));
      LinesMembers(a, b);
      LinesMembers(b, a);
    } else if a != [] {
      RootIsNotEmpty(a);
    } else if b != [] {
      RootIsNotEmpty(b);
    }
  }

  /** Without that, roots do not tell inventories apart: two pairs with one leaf text. */
  lemma OneLineOneRoot(p: Pair, q: Pair)
    requires Line(p) == Line(q)
    ensures RootOf([p]) == RootOf([q])
  {
    LeafShowsLine(p, q);
  }

  /** Repetition is invisible in part: listing the last pair of an odd inventory once
      more does not change the root. */
  lemma RepeatedLastIsInvisible(items: seq<Pair>)
    requires |items| % 2 == 1 && |items| > 1
    ensures RootOf(items + [items[|items| - 1]]) == RootOf(items)
  {
    var more := items + [items[|items| - 1]];
    var x, y := Leaves(items), Leaves(more);
    forall i | 0 <= i < |Up(x)| ensures Up(x)[i] == Up(y)[i] {
      assert y[2 * i] == x[2 * i];
      assert y[Sibling(|y|, 2 * i)] == x[Sibling(|x|, 2 * i)];
    }
    assert Up(x) == Up(y);
  }

  // --- Building -----------------------------------------------------------------

  datatype MerkleTree = MerkleTree(items: seq<Pair>, root: Digest)

  method NextLevel(current: seq<Digest>) returns (next: seq<Digest>)
    ensures next == Up(current)
  {
    next := [];
    var i := 0;
    while i < |current|
      invariant i == 2 * |next| && i <= |current| + 1
      invariant forall k :: 0 <= k < |next| ==> next[k] == Join(current[2 * k], current[Sibling(|current|, 2 * k)])
    {
      var left := current[i];
      var right := if i + 1 < |current| then current[i + 1] else current[i];
      next := next + [Join(left, right)];
      i := i + 2;
    }
  }

  method FromInventory(items: Option<seq<Pair>>) returns (tree: MerkleTree)
    ensures tree.items == if items.Some? then Sort(items.value) else []
    ensures tree.root == RootOf(tree.items)
  {
    if items.None? || items.value == [] {
      return MerkleTree([], InternalHash([], []));
    }
    var ordered := Sort(items.value);
    assert |ordered| == |multiset(ordered)| == |multiset(items.value)| == |items.value|;
    var level := Leaves(ordered);
    while |level| > 1
      invariant level != [] && Root(level) == Root(Leaves(ordered))
      decreases |level|
    {
      level := NextLevel(level);
    }
    return MerkleTree(ordered, level[0]);
  }

  // --- Difference ---------------------------------------------------------------

  /** The owner a dictionary built from `items` holds for each hash: the last listed. */
  function Owners(items: seq<Pair>): map<string, string> {
    if items == [] then map[] else Owners(items[..|items| - 1])[items[|items| - 1].0 := items[|items| - 1].1]
  }

  predicate Listed(theirs: map<string, string>, p: Pair) { p.0 in theirs && theirs[p.0] == p.1 }

  lemma {:induction false} OwnersListed(items: seq<Pair>, h: string)
    ensures h in Owners(items) ==> (h, Owners(items)[h]) in items
    ensures h in Owners(items) <==> exists o :: (h, o) in items
  {
    if items != [] {
      OwnersListed(items[..|items| - 1], h);
      var last := items[|items| - 1];
      assert items == items[..|items| - 1] + [last];
      assert (last.0, last.1) == last && last in items;
      if o :| (h, o) in items && h != last.0 {
        assert (h, o) in items[..|items| - 1];
      }
      if o :| (h, o) in items[..|items| - 1] {
        assert (h, o) in items;
      }
    }
  }

  /** The indices a comparison reports: none for equal roots, otherwise those of the
      local pairs that the other side's dictionary does not hold. */
  ghost predicate IsDiff(a: MerkleTree, b: MerkleTree, out: seq<nat>) {
    && (forall k, l :: 0 <= k < l < |out| ==> out[k] < out[l])
    && (forall i: nat :: i in out <==> a.root != b.root && i < |a.items| && !Listed(Owners(b.items), a.items[i]))
  }

  method Diff(a: MerkleTree, b: MerkleTree) returns (out: seq<nat>)
    ensures IsDiff(a, b, out)
  {
    out := [];
    if a.root == b.root {
      return;
    }
    var theirs: map<string, string> := map[];
    for k := 0 to |b.items|
      invariant theirs == Owners(b.items[..k])
    {
      assert b.items[..k + 1][..k] == b.items[..k];
      theirs := theirs[b.items[k].0 := b.items[k].1];
    }
    assert b.items[..|b.items|] == b.items;
    for i := 0 to |a.items|
      invariant forall k, l :: 0 <= k < l < |out| ==> out[k] < out[l]
      invariant forall k :: 0 <= k < |out| ==> out[k] < i
      invariant forall j: nat :: j in out <==> j < i && !Listed(theirs, a.items[j])
    {
      var (h, n) := a.items[i];
      if h !in theirs {
        out := out + [i];
      } else if theirs[h] != n {
        out := out + [i];
      }
    }
  }

  /** A hash has one owner. */
  predicate OneOwner(items: seq<Pair>) {
    forall i, j :: 0 <= i < |items| && 0 <= j < |items| && items[i].0 == items[j].0 ==> items[i].1 == items[j].1
  }

  /** The report names exactly the local pairs the other tree lacks. */
  ghost predicate ExactDiff(a: MerkleTree, b: MerkleTree, out: seq<nat>) {
    forall i: nat :: i in out <==> i < |a.items| && a.items[i] !in b.items
  }

  /** No other owner of its hash is listed after position `j`. */
  predicate LastFor(items: seq<Pair>, j: int) {
    0 <= j < |items| && forall k :: j < k < |items| && items[k].0 == items[j].0 ==> items[k].1 == items[j].1
  }

  /** The dictionary holds a pair exactly when the pair is listed and no other owner of
      its hash is listed after it. */
  lemma {:induction false} ListedIff(items: seq<Pair>, p: Pair)
    ensures Listed(Owners(items), p) <==> exists j :: LastFor(items, j) && items[j] == p
  {
    if items != [] {
      var init, last := items[..|items| - 1], items[|items| - 1];
      ListedIff(init, p);
      assert LastFor(items, |init|);
      if last.0 != p.0 {
        forall j | 0 <= j < |init| && items[j] == p ensures LastFor(init, j) <==> LastFor(items, j) {
          if LastFor(init, j) {
            forall k | j < k < |items| && items[k].0 == items[j].0 ensures items[k].1 == items[j].1 {
              assert k < |init| && items[k] == init[k];
            }
          }
        }
      }
    }
  }

  /** Every local pair the other tree also lists is listed there with no other owner of
      its hash after it. */
  ghost predicate NoneHidden(a: seq<Pair>, b: seq<Pair>) {
    forall i :: 0 <= i < |a| && a[i] in b ==> exists j :: LastFor(b, j) && b[j] == a[i]
  }

  lemma HiddenIff(a: seq<Pair>, b: seq<Pair>)
    ensures NoneHidden(a, b) <==> forall i :: 0 <= i < |a| && a[i] in b ==> Listed(Owners(b), a[i])
  {
    forall i | 0 <= i < |a| ensures Listed(Owners(b), a[i]) <==> exists j :: LastFor(b, j) && b[j] == a[i] {
      ListedIff(b, a[i]);
    }
  }

  /** Between different roots the report is exact exactly when no shared pair is hidden by
      another owner listed after it; between equal roots it is, unless leaf texts are
      ambiguous. */
  lemma DiffIsExactIff(a: MerkleTree, b: MerkleTree, out: seq<nat>)
    requires a.root == RootOf(a.items) && b.root == RootOf(b.items) && IsDiff(a, b, out)
    ensures a.root != b.root ==> (ExactDiff(a, b, out) <==> NoneHidden(a.items, b.items))
    ensures a.root == b.root && Unambiguous(a.items, b.items) ==> ExactDiff(a, b, out)
  {
    if a.root == b.root {
      EqualRootsMembers(a.items, b.items);
    } else {
      HiddenIff(a.items, b.items);
      forall i: nat | i < |a.items| && a.items[i] !in b.items ensures i in out {
        OwnersListed(b.items, a.items[i].0);
        assert a.items[i] == (a.items[i].0, a.items[i].1);
      }
      if ExactDiff(a, b, out) {
        forall i | 0 <= i < |a.items| && a.items[i] in b.items ensures Listed(Owners(b.items), a.items[i]) {
          var k: nat := i;
          assert k !in out;
        }
      }
    }
  }

  /** With one owner per hash on the other side the report is exact. */
  lemma OneOwnerDiffIsExact(a: MerkleTree, b: MerkleTree, out: seq<nat>)
    requires a.root == RootOf(a.items) && b.root == RootOf(b.items)
    requires Unambiguous(a.items, b.items) && IsDiff(a, b, out) && OneOwner(b.items)
    ensures ExactDiff(a, b, out)
  {
    forall i | 0 <= i < |a.items| && a.items[i] in b.items ensures exists j :: LastFor(b.items, j) && b.items[j] == a.items[i] {
      var j :| 0 <= j < |b.items| && b.items[j] == a.items[i];
      assert LastFor(b.items, j);
    }
    DiffIsExactIff(a, b, out);
  }

  /** Two sorted trees, of which the second lists one more owner of the same hash: their
      report names a pair that both hold. */
  lemma TwoOwnersMislead(h: string, n: string, m: string, a: MerkleTree, b: MerkleTree, out: seq<nat>)
    requires n != m && StringLe(n, m)
    requires a == MerkleTree([(h, n)], RootOf([(h, n)])) && b == MerkleTree([(h, n), (h, m)], RootOf([(h, n), (h, m)]))
    requires IsDiff(a, b, out)
    ensures Sorted(a.items) && Sorted(b.items)
    ensures a.items[0] in b.items && 0 in out && !ExactDiff(a, b, out)
  {
    assert a.items == [] + [(h, n)] && b.items == a.items + [(h, m)] && b.items[..1] == a.items;
    SortedSnoc([], (h, n));
    SortedSnoc(a.items, (h, m));
    EqualRootsIff(a.items, b.items);
    assert Levels(2) == 1 + Levels(1);
    assert Owners(b.items)[h] == m;
    assert (h, n) in b.items;
  }
}

/** The Merkle tree over an inventory of (content hash, owner) pairs.

    Hashing is ideal: a digest is the symbolic value of its preimage, so equal digests
    have equal preimages, and a digest inside a preimage is never confused with text. */
module Merkle {
  import opened Powers

  type Pair = (string, string)

  /** What SHA-256 is fed: characters of text, or whole digests. */
  datatype Atom = Text(c: char) | Raw(digest: Digest)

  datatype Digest = Sha(preimage: seq<Atom>)

  function Encode(s: string): (bytes: seq<Atom>)
    ensures |bytes| == |s| && forall i :: 0 <= i < |s| ==> bytes[i] == Text(s[i])
  {
    seq(|s|, i requires 0 <= i < |s| => Text(s[i]))
  }

  function LeafHash(p: Pair): Digest { Sha(Encode(p.0) + [Text('|')] + Encode(p.1)) }

  function InternalHash(left: seq<Atom>, right: seq<Atom>): Digest { Sha(left + right) }

  function Join(left: Digest, right: Digest): Digest { InternalHash([Raw(left)], [Raw(right)]) }

  const EMPTY_ROOT := InternalHash([], [])

  // --- Leaves -------------------------------------------------------------------

  /** The text a leaf is the digest of. */
  function Line(p: Pair): string { p.0 + "|" + p.1 }

  /** A leaf shows its text. */
  lemma LeafShowsLine(p: Pair, q: Pair)
    ensures LeafHash(p) == LeafHash(q) <==> Line(p) == Line(q)
  {
    assert LeafHash(p).preimage == Encode(Line(p)) && LeafHash(q).preimage == Encode(Line(q));
    if Encode(Line(p)) == Encode(Line(q)) {
      forall i | 0 <= i < |Line(p)| ensures Line(p)[i] == Line(q)[i] {
        assert Encode(Line(p))[i] == Encode(Line(q))[i];
      }
    }
  }

  lemma LineShowsLength(p: Pair, q: Pair)
    requires |p.0| < |q.0| && '|' !in q.0
    ensures Line(p) != Line(q)
  {
    assert Line(p)[|p.0|] == '|' && Line(q)[|p.0|] == q.0[|p.0|];
  }

  /** The text shows its pair when the content hash holds no bar. */
  lemma LineShowsPair(p: Pair, q: Pair)
    requires '|' !in p.0 && '|' !in q.0 && Line(p) == Line(q)
    ensures p == q
  {
    if |p.0| < |q.0| {
      LineShowsLength(p, q);
    } else if |q.0| < |p.0| {
      LineShowsLength(q, p);
    } else {
      assert p.0 == Line(p)[..|p.0|] && q.0 == Line(q)[..|q.0|];
      assert p.1 == Line(p)[|p.0| + 1..] && q.1 == Line(q)[|q.0| + 1..];
    }
  }

  /** With bars in the hash a leaf no longer does: the separator is not escaped. */
  lemma BarsConfuseLeaves(a: string, b: string, c: string)
    ensures LeafHash((a + "|" + b, c)) == LeafHash((a, b + "|" + c))
  {
    assert Line((a + "|" + b, c)) == Line((a, b + "|" + c));
    LeafShowsLine((a + "|" + b, c), (a, b + "|" + c));
  }

  // --- Levels -------------------------------------------------------------------

  /** The sibling of an even position: the next one, or itself at an odd end. */
  function Sibling(n: nat, i: nat): nat { if i + 1 < n then i + 1 else i }

  /** The level above: neighbours joined in pairs, an odd last node joined to itself. */
  function Up(level: seq<Digest>): (up: seq<Digest>)
    ensures |up| == (|level| + 1) / 2
    ensures forall i :: 0 <= i < |up| ==> up[i] == Join(level[2 * i], level[Sibling(|level|, 2 * i)])
  {
    seq((|level| + 1) / 2, i requires 0 <= i < (|level| + 1) / 2 =>
      Join(level[2 * i], level[Sibling(|level|, 2 * i)]))
  }

  function Root(level: seq<Digest>): Digest
    requires level != []
    decreases |level|
  {
    if |level| == 1 then level[0] else Root(Up(level))
  }

  /** How many levels lie above one of `n` nodes. */
  function Levels(n: nat): nat
    decreases n
  {
    if n <= 1 then 0 else 1 + Levels((n + 1) / 2)
  }

  /** Which of `n` nodes stands at position `j` of the complete binary tree that
      repeating the last node amounts to. */
  function Source(n: nat, j: nat): (i: nat)
    requires n > 0
    ensures i < n
    decreases n
  {
    if n == 1 then 0
    else
      var up := 2 * Source((n + 1) / 2, j / 2);
      if j % 2 == 0 then up else Sibling(n, up)
  }

  /** The nodes themselves come first; only later positions repeat. */
  lemma {:induction false} SourceOfNode(n: nat, j: nat)
    requires j < n
    ensures Source(n, j) == j && j < Pow2(Levels(n))
    decreases n
  {
    if n > 1 {
      SourceOfNode((n + 1) / 2, j / 2);
    }
  }

  lemma SourceBelow(n: nat, j: nat)
    requires n > 1
    ensures Source(n, 2 * j) == 2 * Source((n + 1) / 2, j)
    ensures Source(n, 2 * j + 1) == Sibling(n, 2 * Source((n + 1) / 2, j))
  {
    assert (2 * j) / 2 == j && (2 * j + 1) / 2 == j;
  }

  function Read<T>(level: seq<T>, j: nat): T
    requires level != []
  {
    level[Source(|level|, j)]
  }

  /** Two levels read alike when the complete trees they stand for do. */
  ghost predicate ReadAlike<T(!new)>(a: seq<T>, b: seq<T>)
    requires a != [] && b != []
  {
    && Levels(|a|) == Levels(|b|)
    && forall j: nat :: j < Pow2(Levels(|a|)) ==> Read(a, j) == Read(b, j)
  }

  lemma JoinShowsChildren(a: Digest, b: Digest, c: Digest, d: Digest)
    ensures Join(a, b) == Join(c, d) <==> a == c && b == d
  {
    assert Join(a, b).preimage == [Raw(a), Raw(b)];
    assert Join(c, d).preimage == [Raw(c), Raw(d)];
  }

  /** Positions `2j` and `2j + 1` below are the two children of position `j` above. */
  lemma ReadBelow(a: seq<Digest>, j: nat)
    requires |a| > 1
    ensures Read(Up(a), j) == Join(Read(a, 2 * j), Read(a, 2 * j + 1))
  {
    SourceBelow(|a|, j);
  }

  lemma ReadUp(a: seq<Digest>, b: seq<Digest>, j: nat)
    requires |a| > 1 && |b| > 1
    ensures Read(Up(a), j) == Read(Up(b), j) <==>
      Read(a, 2 * j) == Read(b, 2 * j) && Read(a, 2 * j + 1) == Read(b, 2 * j + 1)
  {
    ReadBelow(a, j);
    ReadBelow(b, j);
    JoinShowsChildren(Read(a, 2 * j), Read(a, 2 * j + 1), Read(b, 2 * j), Read(b, 2 * j + 1));
  }

  lemma ReadAlikeAbove(a: seq<Digest>, b: seq<Digest>)
    requires |a| > 1 && |b| > 1 && ReadAlike(a, b)
    ensures ReadAlike(Up(a), Up(b))
  {
    forall j: nat | j < Pow2(Levels(|Up(a)|)) ensures Read(Up(a), j) == Read(Up(b), j) {
      assert 2 * j + 1 < Pow2(Levels(|a|));
      ReadUp(a, b, j);
    }
  }

  lemma ReadAlikeBelow(a: seq<Digest>, b: seq<Digest>)
    requires |a| > 1 && |b| > 1 && ReadAlike(Up(a), Up(b))
    ensures ReadAlike(a, b)
  {
    forall j: nat | j < Pow2(Levels(|a|)) ensures Read(a, j) == Read(b, j) {
      var k := j / 2;
      assert k < Pow2(Levels(|Up(a)|)) && (j == 2 * k || j == 2 * k + 1);
      ReadUp(a, b, k);
    }
  }

  /** Digests of the same rank: `k` joins above a leaf. */
  predicate Rank(d: Digest, k: nat) {
    if k == 0 then forall i :: 0 <= i < |d.preimage| ==> d.preimage[i].Text?
    else |d.preimage| == 2 && d.preimage[0].Raw? && Rank(d.preimage[0].digest, k - 1)
  }

  lemma JoinIsNoLeaf(d: Digest, k: nat)
    requires k > 0 && Rank(d, k)
    ensures !Rank(d, 0)
  {
    assert d.preimage[0].Raw?;
  }

  lemma {:induction false} RankIsUnique(d: Digest, j: nat, k: nat)
    requires Rank(d, j) && Rank(d, k)
    ensures j == k
  {
    if j > 0 && k > 0 {
      RankIsUnique(d.preimage[0].digest, j - 1, k - 1);
    } else if j > 0 {
      JoinIsNoLeaf(d, j);
    } else if k > 0 {
      JoinIsNoLeaf(d, k);
    }
  }

  predicate AllRank(level: seq<Digest>, k: nat) { forall i :: 0 <= i < |level| ==> Rank(level[i], k) }

  lemma {:induction false} RootRank(level: seq<Digest>, k: nat)
    requires level != [] && AllRank(level, k)
    ensures Rank(Root(level), k + Levels(|level|))
    decreases |level|
  {
    if |level| > 1 {
      forall i | 0 <= i < |Up(level)| ensures Rank(Up(level)[i], k + 1) {
        assert Up(level)[i].preimage[0] == Raw(level[2 * i]);
      }
      RootRank(Up(level), k + 1);
    }
  }

  /** Between levels of the same height, equal roots mean equal reading. */
  lemma {:induction false} RootReadsLevel(a: seq<Digest>, b: seq<Digest>)
    requires a != [] && b != [] && Levels(|a|) == Levels(|b|)
    ensures Root(a) == Root(b) <==> ReadAlike(a, b)
    decreases |a|
  {
    if |a| == 1 {
      assert |b| == 1;
      assert Read(a, 0) == a[0] && Read(b, 0) == b[0];
    } else {
      RootReadsLevel(Up(a), Up(b));
      if ReadAlike(a, b) {
        ReadAlikeAbove(a, b);
      }
      if ReadAlike(Up(a), Up(b)) {
        ReadAlikeBelow(a, b);
      }
    }
  }

  function Leaves(items: seq<Pair>): (leaves: seq<Digest>)
    ensures |leaves| == |items| && forall i :: 0 <= i < |items| ==> leaves[i] == LeafHash(items[i])
  {
    seq(|items|, i requires 0 <= i < |items| => LeafHash(items[i]))
  }

  /** The root of a sorted inventory. */
  function RootOf(items: seq<Pair>): Digest {
    if items == [] then EMPTY_ROOT else Root(Leaves(items))
  }

  /** No content hash holds the separator. */
  predicate BarFree(items: seq<Pair>) { forall p :: p in items ==> '|' !in p.0 }

  /** No pair of one inventory has the leaf text of a different pair of the other. */
  predicate Unambiguous(a: seq<Pair>, b: seq<Pair>) {
    forall p, q :: p in a && q in b && Line(p) == Line(q) ==> p == q
  }

  lemma BarFreeIsUnambiguous(a: seq<Pair>, b: seq<Pair>)
    requires BarFree(a) && BarFree(b)
    ensures Unambiguous(a, b)
  {
    forall p, q | p in a && q in b && Line(p) == Line(q) ensures p == q {
      LineShowsPair(p, q);
    }
  }

  lemma LeavesRank(items: seq<Pair>)
    ensures AllRank(Leaves(items), 0)
  {
  }

  /** The root of a non-empty inventory is not the empty root. */
  lemma RootIsNotEmpty(items: seq<Pair>)
    requires items != []
    ensures RootOf(items) != EMPTY_ROOT
  {
    LeavesRank(items);
    RootRank(Leaves(items), 0);
    if Levels(|items|) == 0 {
      SourceOfNode(|items|, 0);
      assert |items| == 1;
      assert Root(Leaves(items)) == LeafHash(items[0]);
    }
  }

  function Lines(items: seq<Pair>): (lines: seq<string>)
    ensures |lines| == |items| && forall i :: 0 <= i < |items| ==> lines[i] == Line(items[i])
  {
    seq(|items|, i requires 0 <= i < |items| => Line(items[i]))
  }

  /** Equal roots, for any two non-empty inventories: exactly when their leaf texts read
      alike. */
  lemma EqualRootsIff(a: seq<Pair>, b: seq<Pair>)
    requires a != [] && b != []
    ensures RootOf(a) == RootOf(b) <==> ReadAlike(Lines(a), Lines(b))
  {
    var x, y := Leaves(a), Leaves(b);
    LeavesRank(a);
    LeavesRank(b);
    RootRank(x, 0);
    RootRank(y, 0);
    if Levels(|a|) != Levels(|b|) {
      if Root(x) == Root(y) {
        RankIsUnique(Root(x), Levels(|a|), Levels(|b|));
      }
    } else {
      RootReadsLevel(x, y);
      forall j: nat
        ensures Read(x, j) == Read(y, j) <==> Read(Lines(a), j) == Read(Lines(b), j)
      {
        LeafShowsLine(a[Source(|a|, j)], b[Source(|b|, j)]);
      }
    }
  }

  /** The small trees, written out: nothing, one pair, two, and three, whose last leaf is
      paired with itself. */
  lemma SmallTrees(p: Pair, q: Pair, r: Pair)
    ensures RootOf([]) == Sha([])
    ensures RootOf([p]) == Sha(Encode(p.0 + "|" + p.1))
    ensures RootOf([p, q]) == Sha([Raw(RootOf([p])), Raw(RootOf([q]))])
    ensures RootOf([p, q, r]) == Sha([Raw(RootOf([p, q])), Raw(RootOf([r, r]))])
  {
    assert LeafHash(p).preimage == Encode(Line(p));
    assert Leaves([p]) == [LeafHash(p)] && Leaves([q]) == [LeafHash(q)];
    PairRoot(p, q);
    PairRoot(r, r);
    var x := Leaves([p, q, r]);
    assert Up(x) == [Join(LeafHash(p), LeafHash(q)), Join(LeafHash(r), LeafHash(r))];
    RootOfTwo(Up(x), RootOf([p, q]), RootOf([r, r]));
    assert Root(x) == Root(Up(x));
  }

  lemma RootOfTwo(level: seq<Digest>, a: Digest, b: Digest)
    requires level == [a, b]
    ensures Root(level) == Join(a, b)
  {
    assert Up(level) == [Join(a, b)];
    assert Root(level) == Root(Up(level)) == Up(level)[0];
  }

  lemma PairRoot(p: Pair, q: Pair)
    ensures RootOf([p, q]) == Join(LeafHash(p), LeafHash(q))
  {
    assert Leaves([p, q]) == [LeafHash(p), LeafHash(q)];
    RootOfTwo(Leaves([p, q]), LeafHash(p), LeafHash(q));
  }
}

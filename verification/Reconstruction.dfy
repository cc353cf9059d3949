/** What a reconstruction promises: which fragments may stand for which tokens, what a
    list of fragments covers, where the gaps are, and what deduplication keeps. */
module Reconstruction {
  import opened Fragments
  import opened Fragmenter

  /** `f` may stand for its span of the prompt: the model is the requested one and the
      hash is a hash of exactly the tokens of the span. */
  predicate Genuine(h: Hashing, f: Fragment, prompt: seq<int>, model: string) {
    f.model == model && f.end < |prompt| && HashOf(h, f.hash, prompt[f.start..f.end + 1])
  }

  /** `f` carries a hash of some token sequence as long as its span. */
  ghost predicate Honest(h: Hashing, f: Fragment) {
    exists tokens :: |tokens| == Span(f) && HashOf(h, f.hash, tokens)
  }

  lemma GenuineIsHonest(h: Hashing, f: Fragment, prompt: seq<int>, model: string)
    requires Genuine(h, f, prompt, model)
    ensures Honest(h, f)
  {
    assert |prompt[f.start..f.end + 1]| == Span(f);
  }

  /** With ideal hashing the hash of an honest fragment tells the length of its span. */
  lemma HashTellsLength(h: Hashing, f: Fragment, tokens: seq<int>)
    requires Ideal(h) && Honest(h, f) && HashOf(h, f.hash, tokens)
    ensures Span(f) == |tokens|
  {
    var other :| |other| == Span(f) && HashOf(h, f.hash, other);
    assert other == tokens;
  }

  // --- Coverage -------------------------------------------------------------------

  /** Some fragment of `fs` spans token `i`. */
  predicate CoveredBy(fs: seq<Fragment>, i: int) {
    fs != [] && (fs[|fs| - 1].start <= i <= fs[|fs| - 1].end || CoveredBy(fs[..|fs| - 1], i))
  }

  lemma CoveredSnoc(fs: seq<Fragment>, f: Fragment, i: int)
    ensures CoveredBy(fs + [f], i) <==> CoveredBy(fs, i) || f.start <= i <= f.end
  {
    assert (fs + [f])[..|fs|] == fs;
  }

  /** Coverage said by members. */
  lemma {:induction false} CoveredIffSpanned(fs: seq<Fragment>, i: int)
    ensures CoveredBy(fs, i) <==> exists f :: f in fs && f.start <= i <= f.end
  {
    if fs != [] {
      var init, last := fs[..|fs| - 1], fs[|fs| - 1];
      CoveredIffSpanned(init, i);
      assert fs == init + [last];
      if CoveredBy(init, i) {
        var f :| f in init && f.start <= i <= f.end;
        assert f in fs;
      }
      if last.start <= i <= last.end {
        assert last in fs;
      }
    }
  }

  /** The bitmap is the union of the spans. */
  ghost predicate Tracks(coverage: seq<bool>, fs: seq<Fragment>) {
    forall i :: 0 <= i < |coverage| ==> coverage[i] == CoveredBy(fs, i)
  }

  lemma TracksSnoc(before: seq<bool>, after: seq<bool>, fs: seq<Fragment>, f: Fragment)
    requires |before| == |after| && Tracks(before, fs)
    requires forall i :: 0 <= i < |after| ==> after[i] == (before[i] || f.start <= i <= f.end)
    ensures Tracks(after, fs + [f])
  {
    forall i | 0 <= i < |after| ensures after[i] == CoveredBy(fs + [f], i) {
      CoveredSnoc(fs, f, i);
    }
  }

  // --- Gaps -----------------------------------------------------------------------

  type Range = (int, int)

  predicate Inside(g: Range, i: int) { g.0 <= i <= g.1 }

  function Length(g: Range): int { g.1 - g.0 + 1 }

  /** A non-empty run of uncovered tokens that cannot be made longer. */
  predicate MaximalGap(coverage: seq<bool>, g: Range) {
    && 0 <= g.0 <= g.1 < |coverage|
    && (forall i :: g.0 <= i <= g.1 ==> !coverage[i])
    && (g.0 == 0 || coverage[g.0 - 1])
    && (g.1 == |coverage| - 1 || coverage[g.1 + 1])
  }

  /** The maximal uncovered runs below `upTo`, all of them, in order. */
  predicate GapsUpTo(coverage: seq<bool>, gaps: seq<Range>, upTo: nat)
  {
    && upTo <= |coverage|
    && (forall k :: 0 <= k < |gaps| ==> MaximalGap(coverage, gaps[k]) && gaps[k].1 < upTo)
    && (forall j, k :: 0 <= j < k < |gaps| ==> gaps[j].1 < gaps[k].0)
    && (forall i :: 0 <= i < upTo && !coverage[i] ==> exists k :: 0 <= k < |gaps| && Inside(gaps[k], i))
  }

  predicate AreGaps(coverage: seq<bool>, gaps: seq<Range>) { GapsUpTo(coverage, gaps, |coverage|) }

  /** Two maximal runs that share a token are the same run. */
  lemma MaximalGapsMeet(coverage: seq<bool>, g: Range, k: Range, i: int)
    requires MaximalGap(coverage, g) && MaximalGap(coverage, k) && Inside(g, i) && Inside(k, i)
    ensures g == k
  {
  }

  /** Every gap of one list is a gap of the other. */
  lemma GapIsListed(coverage: seq<bool>, a: seq<Range>, b: seq<Range>, k: nat) returns (m: nat)
    requires AreGaps(coverage, a) && AreGaps(coverage, b) && k < |a|
    ensures m < |b| && a[k] == b[m]
  {
    var i := a[k].0;
    assert !coverage[i];
    m :| 0 <= m < |b| && Inside(b[m], i);
    MaximalGapsMeet(coverage, a[k], b[m], i);
  }

  lemma {:induction false} GapsAgreeUpTo(coverage: seq<bool>, a: seq<Range>, b: seq<Range>, n: nat)
    requires AreGaps(coverage, a) && AreGaps(coverage, b) && n <= |a| && n <= |b|
    ensures forall k :: 0 <= k < n ==> a[k] == b[k]
  {
    if n > 0 {
      GapsAgreeUpTo(coverage, a, b, n - 1);
      var m := GapIsListed(coverage, a, b, n - 1);
      var l := GapIsListed(coverage, b, a, n - 1);
      assert m >= n - 1 && l >= n - 1;
      assert m == n - 1;
    }
  }

  lemma GapsAreNoMore(coverage: seq<bool>, a: seq<Range>, b: seq<Range>)
    requires AreGaps(coverage, a) && AreGaps(coverage, b)
    ensures |a| <= |b|
  {
    if |b| < |a| {
      GapsAgreeUpTo(coverage, a, b, |b|);
      var m := GapIsListed(coverage, a, b, |b|);
      assert false;
    }
  }

  /** The gaps of a bitmap are one list. */
  lemma GapsAreUnique(coverage: seq<bool>, a: seq<Range>, b: seq<Range>)
    requires AreGaps(coverage, a) && AreGaps(coverage, b)
    ensures a == b
  {
    GapsAreNoMore(coverage, a, b);
    GapsAreNoMore(coverage, b, a);
    GapsAgreeUpTo(coverage, a, b, |a|);
  }

  /** Gaps cover exactly the uncovered tokens, each once. */
  lemma GapsAreUncovered(coverage: seq<bool>, gaps: seq<Range>, i: int)
    requires AreGaps(coverage, gaps) && 0 <= i < |coverage|
    ensures !coverage[i] <==> exists k :: 0 <= k < |gaps| && Inside(gaps[k], i)
  {
  }

  // --- Deduplication ----------------------------------------------------------------

  predicate HasHash(fs: seq<Fragment>, hash: Hash) {
    fs != [] && (fs[|fs| - 1].hash == hash || HasHash(fs[..|fs| - 1], hash))
  }

  /** The first fragment of every hash. */
  function Dedup(fs: seq<Fragment>): (r: seq<Fragment>) {
    if fs == [] then []
    else if HasHash(fs[..|fs| - 1], fs[|fs| - 1].hash) then Dedup(fs[..|fs| - 1])
    else Dedup(fs[..|fs| - 1]) + [fs[|fs| - 1]]
  }

  predicate DistinctHashes(fs: seq<Fragment>) {
    forall j, k :: 0 <= j < k < |fs| ==> fs[j].hash != fs[k].hash
  }

  lemma {:induction false} HasHashIff(fs: seq<Fragment>, hash: Hash)
    ensures HasHash(fs, hash) <==> exists k :: 0 <= k < |fs| && fs[k].hash == hash
  {
    if fs != [] {
      HasHashIff(fs[..|fs| - 1], hash);
    }
  }

  lemma DistinctByLast(fs: seq<Fragment>)
    requires fs != []
    ensures var init, last := fs[..|fs| - 1], fs[|fs| - 1];
      DistinctHashes(fs) <==> DistinctHashes(init) && !HasHash(init, last.hash)
  {
    HasHashIff(fs[..|fs| - 1], fs[|fs| - 1].hash);
  }

  lemma HasHashSnoc(fs: seq<Fragment>, f: Fragment, hash: Hash)
    ensures HasHash(fs + [f], hash) <==> HasHash(fs, hash) || f.hash == hash
    ensures DistinctHashes(fs + [f]) <==> DistinctHashes(fs) && !HasHash(fs, f.hash)
  {
    assert (fs + [f])[..|fs|] == fs;
    DistinctByLast(fs + [f]);
  }

  /** Deduplication keeps every hash, once. */
  lemma {:induction false} DedupHashes(fs: seq<Fragment>, hash: Hash)
    ensures HasHash(Dedup(fs), hash) <==> HasHash(fs, hash)
    ensures DistinctHashes(Dedup(fs))
  {
    if fs != [] {
      var init, last := fs[..|fs| - 1], fs[|fs| - 1];
      DedupHashes(init, hash);
      DedupHashes(init, last.hash);
      HasHashSnoc(Dedup(init), last, hash);
    }
  }

  lemma {:induction false} DedupMembers(fs: seq<Fragment>)
    ensures forall f :: f in Dedup(fs) ==> f in fs
    ensures |Dedup(fs)| <= |fs|
  {
    if fs != [] {
      DedupMembers(fs[..|fs| - 1]);
      assert fs == fs[..|fs| - 1] + [fs[|fs| - 1]];
    }
  }

  /** What is kept is the first of each hash. */
  lemma {:induction false} DedupKeepsFirsts(fs: seq<Fragment>, f: Fragment)
    ensures f in Dedup(fs) <==> exists k :: 0 <= k < |fs| && fs[k] == f && forall j :: 0 <= j < k ==> fs[j].hash != f.hash
  {
    if fs != [] {
      var init, last := fs[..|fs| - 1], fs[|fs| - 1];
      DedupKeepsFirsts(init, f);
      HasHashIff(init, last.hash);
      assert forall k :: 0 <= k < |init| ==> init[k] == fs[k];
      if k :| 0 <= k < |init| && init[k] == f && forall j :: 0 <= j < k ==> init[j].hash != f.hash {
        assert fs[k] == f && forall j :: 0 <= j < k ==> fs[j].hash != f.hash;
      }
      if f == last && !HasHash(init, last.hash) {
        assert fs[|init|] == f && forall j :: 0 <= j < |init| ==> fs[j].hash != f.hash;
      }
    }
  }

  /** No two spans share a token, and all lie within the first `n` tokens. */
  predicate Apart(fs: seq<Fragment>, n: nat) {
    && (forall k :: 0 <= k < |fs| ==> fs[k].end < n)
    && (forall j, k :: 0 <= j < k < |fs| ==> fs[j].end < fs[k].start || fs[k].end < fs[j].start)
  }

  /** The span of `f` is within the bitmap and nothing of it is covered. */
  predicate Clear(coverage: seq<bool>, f: Fragment) {
    f.end < |coverage| && forall i :: f.start <= i <= f.end ==> !coverage[i]
  }

  /** A fragment whose tokens were all uncovered is apart from those before it. */
  lemma ApartSnoc(coverage: seq<bool>, fs: seq<Fragment>, f: Fragment)
    requires Tracks(coverage, fs) && Apart(fs, |coverage|) && Clear(coverage, f)
    ensures Apart(fs + [f], |coverage|)
  {
    forall j | 0 <= j < |fs| ensures fs[j].end < f.start || f.end < fs[j].start {
      assert fs[j] in fs;
      var i := if f.start < fs[j].start then fs[j].start else f.start;
      if i <= f.end {
        CoveredIffSpanned(fs, i);
      }
    }
  }

  lemma ApartFromLast(fs: seq<Fragment>, n: nat, i: int)
    requires fs != [] && Apart(fs, n) && fs[|fs| - 1].start <= i <= fs[|fs| - 1].end
    ensures !CoveredBy(fs[..|fs| - 1], i)
  {
    CoveredIffSpanned(fs[..|fs| - 1], i);
  }

  predicate SameAt(a: seq<Fragment>, b: seq<Fragment>, i: int) { CoveredBy(a, i) <==> CoveredBy(b, i) }

  /** The same tokens of the first `n` are covered. */
  predicate SameCoverage(a: seq<Fragment>, b: seq<Fragment>, n: nat) {
    forall i :: 0 <= i < n ==> SameAt(a, b, i)
  }

  lemma SameCoverageByToken(a: seq<Fragment>, b: seq<Fragment>, c: seq<Fragment>, d: seq<Fragment>, n: nat)
    requires forall i :: 0 <= i < n ==> (SameAt(a, b, i) <==> SameAt(c, d, i))
    ensures SameCoverage(a, b, n) <==> SameCoverage(c, d, n)
  {
  }

  lemma TracksToo(covered: seq<bool>, fs: seq<Fragment>, gs: seq<Fragment>)
    requires Tracks(covered, fs)
    ensures Tracks(covered, gs) <==> SameCoverage(gs, fs, |covered|)
  {
    if SameCoverage(gs, fs, |covered|) {
      forall i | 0 <= i < |covered| ensures covered[i] == CoveredBy(gs, i) {
        assert SameAt(gs, fs, i);
      }
    }
  }

  lemma DedupCoversNoMore(fs: seq<Fragment>, i: int)
    ensures CoveredBy(Dedup(fs), i) ==> CoveredBy(fs, i)
  {
    CoveredIffSpanned(fs, i);
    CoveredIffSpanned(Dedup(fs), i);
    DedupMembers(fs);
  }

  /** A last fragment whose hash came before is lost, and its tokens with it. */
  lemma LastIsLost(fs: seq<Fragment>, n: nat)
    requires fs != [] && Apart(fs, n) && HasHash(fs[..|fs| - 1], fs[|fs| - 1].hash)
    ensures !SameCoverage(Dedup(fs), fs, n)
  {
    var init, last := fs[..|fs| - 1], fs[|fs| - 1];
    ApartFromLast(fs, n, last.start);
    DedupCoversNoMore(init, last.start);
    assert !SameAt(Dedup(fs), fs, last.start);
  }

  lemma LastIsKeptAt(fs: seq<Fragment>, n: nat, i: int)
    requires fs != [] && Apart(fs, n) && !HasHash(fs[..|fs| - 1], fs[|fs| - 1].hash)
    ensures SameAt(Dedup(fs), fs, i) <==> SameAt(Dedup(fs[..|fs| - 1]), fs[..|fs| - 1], i)
  {
    var init, last := fs[..|fs| - 1], fs[|fs| - 1];
    CoveredSnoc(Dedup(init), last, i);
    if last.start <= i <= last.end {
      ApartFromLast(fs, n, i);
      DedupCoversNoMore(init, i);
    }
  }

  lemma LastIsKept(fs: seq<Fragment>, n: nat)
    requires fs != [] && Apart(fs, n) && !HasHash(fs[..|fs| - 1], fs[|fs| - 1].hash)
    ensures SameCoverage(Dedup(fs), fs, n) <==> SameCoverage(Dedup(fs[..|fs| - 1]), fs[..|fs| - 1], n)
  {
    forall i | 0 <= i < n ensures SameAt(Dedup(fs), fs, i) <==> SameAt(Dedup(fs[..|fs| - 1]), fs[..|fs| - 1], i) {
      LastIsKeptAt(fs, n, i);
    }
    SameCoverageByToken(Dedup(fs), fs, Dedup(fs[..|fs| - 1]), fs[..|fs| - 1], n);
  }

  /** Of spans that are apart, deduplication keeps every covered token covered exactly
      when no two of them share a hash. */
  lemma {:induction false} DedupKeepsCoverageIff(fs: seq<Fragment>, n: nat)
    requires Apart(fs, n)
    ensures SameCoverage(Dedup(fs), fs, n) <==> DistinctHashes(fs)
  {
    if fs != [] {
      var init, last := fs[..|fs| - 1], fs[|fs| - 1];
      DedupKeepsCoverageIff(init, n);
      DistinctByLast(fs);
      if HasHash(init, last.hash) {
        LastIsLost(fs, n);
      } else {
        LastIsKept(fs, n);
      }
    }
  }

  /** Equal windows collapse: of two fragments with one hash at different places only
      the first survives, so tokens of the second go uncovered by the result. */
  lemma RepeatedWindowIsLost(a: Fragment, b: Fragment, i: int)
    requires a.hash == b.hash && b.start <= i <= b.end && !(a.start <= i <= a.end)
    ensures CoveredBy([a, b], i) && !CoveredBy(Dedup([a, b]), i)
  {
    assert [a, b][..1] == [a] && [a][..0] == [];
    assert Dedup([a]) == [a];
    assert HasHash([a], b.hash);
    assert Dedup([a, b]) == [a];
    CoveredSnoc([], a, i);
    assert [] + [a] == [a];
  }

  // --- Sorting ------------------------------------------------------------------------

  predicate ByStart(fs: seq<Fragment>) {
    forall i, j :: 0 <= i < j < |fs| ==> fs[i].start <= fs[j].start
  }

  /** `f` behind every fragment that starts no later. */
  function PlaceByStart(fs: seq<Fragment>, f: Fragment): (r: seq<Fragment>)
    ensures multiset(r) == multiset(fs) + multiset{f}
  {
    if fs == [] || fs[|fs| - 1].start <= f.start then fs + [f]
    else
      assert fs == fs[..|fs| - 1] + [fs[|fs| - 1]];
      PlaceByStart(fs[..|fs| - 1], f) + [fs[|fs| - 1]]
  }

  /** The stable sort by start. */
  function SortByStart(fs: seq<Fragment>): (r: seq<Fragment>)
    ensures multiset(r) == multiset(fs)
  {
    if fs == [] then []
    else
      assert fs == fs[..|fs| - 1] + [fs[|fs| - 1]];
      PlaceByStart(SortByStart(fs[..|fs| - 1]), fs[|fs| - 1])
  }

  /** The fragments with one start, as they come. */
  function WithStart(fs: seq<Fragment>, start: int): seq<Fragment> {
    if fs == [] then []
    else WithStart(fs[..|fs| - 1], start) + if fs[|fs| - 1].start == start then [fs[|fs| - 1]] else []
  }

  lemma WithStartSnoc(fs: seq<Fragment>, f: Fragment, start: int)
    ensures WithStart(fs + [f], start) == WithStart(fs, start) + if f.start == start then [f] else []
  {
    assert (fs + [f])[..|fs|] == fs;
  }

  lemma {:induction false} PlaceByStartIsStable(fs: seq<Fragment>, f: Fragment, start: int)
    ensures WithStart(PlaceByStart(fs, f), start) == WithStart(fs, start) + if f.start == start then [f] else []
  {
    if fs == [] || fs[|fs| - 1].start <= f.start {
      WithStartSnoc(fs, f, start);
    } else {
      PlaceByStartIsStable(fs[..|fs| - 1], f, start);
      WithStartSnoc(PlaceByStart(fs[..|fs| - 1], f), fs[|fs| - 1], start);
    }
  }

  /** Fragments with one start stay in the order in which they came. */
  lemma {:induction false} SortIsStable(fs: seq<Fragment>, start: int)
    ensures WithStart(SortByStart(fs), start) == WithStart(fs, start)
  {
    if fs != [] {
      SortIsStable(fs[..|fs| - 1], start);
      PlaceByStartIsStable(SortByStart(fs[..|fs| - 1]), fs[|fs| - 1], start);
    }
  }

  lemma PlacedMembers(fs: seq<Fragment>, f: Fragment)
    ensures forall g :: g in PlaceByStart(fs, f) ==> g == f || g in fs
  {
    forall g | g in PlaceByStart(fs, f) ensures g == f || g in fs {
      assert g in multiset(PlaceByStart(fs, f));
    }
  }

  lemma ByStartSnoc(fs: seq<Fragment>, f: Fragment)
    requires ByStart(fs) && forall g :: g in fs ==> g.start <= f.start
    ensures ByStart(fs + [f])
  {
  }

  lemma {:induction false} PlaceSorts(fs: seq<Fragment>, f: Fragment)
    requires ByStart(fs)
    ensures ByStart(PlaceByStart(fs, f))
  {
    if fs == [] || fs[|fs| - 1].start <= f.start {
      ByStartSnoc(fs, f);
    } else {
      PlaceSorts(fs[..|fs| - 1], f);
      PlacedMembers(fs[..|fs| - 1], f);
      ByStartSnoc(PlaceByStart(fs[..|fs| - 1], f), fs[|fs| - 1]);
    }
  }

  lemma {:induction false} SortSorts(fs: seq<Fragment>)
    ensures ByStart(SortByStart(fs))
  {
    if fs != [] {
      SortSorts(fs[..|fs| - 1]);
      PlaceSorts(SortByStart(fs[..|fs| - 1]), fs[|fs| - 1]);
    }
  }

  lemma SortMembers(fs: seq<Fragment>)
    ensures forall f :: f in SortByStart(fs) <==> f in fs
  {
    assert forall f :: f in SortByStart(fs) <==> f in multiset(SortByStart(fs));
    assert forall f :: f in fs <==> f in multiset(fs);
  }

  lemma SortCovers(fs: seq<Fragment>, i: int)
    ensures CoveredBy(SortByStart(fs), i) <==> CoveredBy(fs, i)
  {
    SortMembers(fs);
    CoveredIffSpanned(fs, i);
    CoveredIffSpanned(SortByStart(fs), i);
  }

  /** The returned list covers what the bitmap reports exactly when no two assembled
      fragments share a hash. */
  lemma ResultCoversIff(fs: seq<Fragment>, covered: seq<bool>)
    requires Apart(fs, |covered|) && Tracks(covered, fs)
    ensures Tracks(covered, SortByStart(Dedup(fs))) <==> DistinctHashes(fs)
  {
    var unique := Dedup(fs);
    DedupKeepsCoverageIff(fs, |covered|);
    forall i | 0 <= i < |covered| ensures SameAt(SortByStart(unique), fs, i) <==> SameAt(unique, fs, i) {
      SortCovers(unique, i);
    }
    SameCoverageByToken(SortByStart(unique), fs, unique, fs, |covered|);
    TracksToo(covered, fs, SortByStart(unique));
  }

  /** Genuine fragments with one hash stand for equal tokens: only a prompt that repeats
      itself can lose coverage. */
  lemma SharedHashRepeatsTokens(h: Hashing, f: Fragment, g: Fragment, prompt: seq<int>, model: string)
    requires Ideal(h) && Genuine(h, f, prompt, model) && Genuine(h, g, prompt, model) && f.hash == g.hash
    ensures prompt[f.start..f.end + 1] == prompt[g.start..g.end + 1]
  {
  }
}

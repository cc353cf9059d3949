/** Rebuilding the context of a prompt from indexed fragments.

    The index is the exact map, the semantic list (whose ranking is insertion order) and
    the positional tree.  Embeddings, locations, co-access links and the callback for
    prefilled fragments are not part of this model; the prefill adapter's estimate of
    the tensor size is a function of the number of tokens. */
module Reconstructor {
  import opened Fragments
  import opened Fragmenter
  import opened Reconstruction
  import AvlTree
  import AvlContents
  import AvlQueries

  /** Every indexed fragment is honest, the exact map is keyed by content hash, and the
      positional tree is in order. */
  ghost predicate HonestIndex(h: Hashing, exact: map<Hash, Fragment>, semantic: seq<Fragment>, positional: AvlTree.Tree) {
    && (forall k :: k in exact ==> exact[k].hash == k && Honest(h, exact[k]))
    && (forall f :: f in semantic ==> Honest(h, f))
    && (forall f :: f in AvlTree.InOrder(positional) ==> Honest(h, f))
    && AvlTree.Ascending(AvlTree.InOrder(positional))
  }

  lemma TreeInsertMembers(t: AvlTree.Tree, f: Fragment)
    requires AvlTree.Ascending(AvlTree.InOrder(t))
    ensures AvlTree.Ascending(AvlTree.InOrder(AvlTree.Insert(t, f)))
    ensures forall g :: g in AvlTree.InOrder(AvlTree.Insert(t, f)) ==> g == f || g in AvlTree.InOrder(t)
  {
    AvlContents.InsertIsPutInOrder(t, f);
    var before, after := AvlTree.InOrder(t), AvlTree.InOrder(AvlTree.Insert(t, f));
    forall g | g in after ensures g == f || g in before {
      assert g in multiset(after);
    }
  }

  lemma HonestMore(h: Hashing, exact: map<Hash, Fragment>, semantic: seq<Fragment>,
      before: AvlTree.Tree, after: AvlTree.Tree, f: Fragment)
    requires HonestIndex(h, exact, semantic, before) && Honest(h, f) && AvlTree.Ascending(AvlTree.InOrder(after))
    requires forall g :: g in AvlTree.InOrder(after) ==> g == f || g in AvlTree.InOrder(before)
    ensures HonestIndex(h, exact[f.hash := f], semantic + [f], after)
  {
  }

  /** Indexing one more honest fragment keeps the index honest. */
  lemma HonestInsert(h: Hashing, exact: map<Hash, Fragment>, semantic: seq<Fragment>, positional: AvlTree.Tree, f: Fragment)
    requires HonestIndex(h, exact, semantic, positional) && Honest(h, f)
    ensures HonestIndex(h, exact[f.hash := f], semantic + [f], AvlTree.Insert(positional, f))
  {
    TreeInsertMembers(positional, f);
    HonestMore(h, exact, semantic, positional, AvlTree.Insert(positional, f), f);
  }

  class Index {
    var exact: map<Hash, Fragment>
    var semantic: seq<Fragment>
    var positional: AvlTree.Tree

    constructor ()
      ensures exact == map[] && semantic == [] && positional == AvlTree.Tip
    {
      exact, semantic, positional := map[], [], AvlTree.Tip;
    }

    function Contents(): Indexed
      reads this
    {
      Indexed(exact, semantic, positional)
    }

    ghost predicate Sound(h: Hashing)
      reads this
    {
      HonestIndex(h, exact, semantic, positional)
    }

    /** Inserts into every sub-index: the exact entry is replaced, the others grow. */
    method Insert(f: Fragment)
      modifies this
      ensures exact == old(exact)[f.hash := f]
      ensures semantic == old(semantic) + [f]
      ensures positional == AvlTree.Insert(old(positional), f)
    {
      exact := exact[f.hash := f];
      semantic := semantic + [f];
      positional := AvlTree.Insert(positional, f);
    }
  }

  // --- Several fragments indexed one after the other ------------------------------

  function Upserted(exact: map<Hash, Fragment>, fs: seq<Fragment>): map<Hash, Fragment> {
    if fs == [] then exact else Upserted(exact, fs[..|fs| - 1])[fs[|fs| - 1].hash := fs[|fs| - 1]]
  }

  function Inserted(t: AvlTree.Tree, fs: seq<Fragment>): AvlTree.Tree {
    if fs == [] then t else AvlTree.Insert(Inserted(t, fs[..|fs| - 1]), fs[|fs| - 1])
  }

  /** The exact map holds the last fragment of each hash, and what it held of others. */
  lemma {:induction false} UpsertedLookup(exact: map<Hash, Fragment>, fs: seq<Fragment>, hash: Hash)
    ensures var m := Upserted(exact, fs);
      if HasHash(fs, hash) then hash in m && m[hash] in fs && m[hash].hash == hash
      else (hash in m <==> hash in exact) && (hash in m ==> m[hash] == exact[hash])
    ensures forall k :: 0 <= k < |fs| && fs[k].hash == hash && (forall j :: k < j < |fs| ==> fs[j].hash != hash) ==>
      hash in Upserted(exact, fs) && Upserted(exact, fs)[hash] == fs[k]
  {
    if fs != [] {
      var init := fs[..|fs| - 1];
      UpsertedLookup(exact, init, hash);
      assert forall k :: 0 <= k < |init| ==> init[k] == fs[k];
      assert forall f :: f in init ==> f in fs;
    }
  }

  /** The positional tree grows by exactly these. */
  lemma {:induction false} InsertedHolds(t: AvlTree.Tree, fs: seq<Fragment>)
    requires AvlTree.Ascending(AvlTree.InOrder(t))
    ensures AvlTree.Ascending(AvlTree.InOrder(Inserted(t, fs)))
    ensures multiset(AvlTree.InOrder(Inserted(t, fs))) == multiset(AvlTree.InOrder(t)) + multiset(fs)
  {
    if fs != [] {
      var init, last := fs[..|fs| - 1], fs[|fs| - 1];
      InsertedHolds(t, init);
      InsertHolds(Inserted(t, init), last, Inserted(t, fs), multiset(AvlTree.InOrder(t)), multiset(init));
      MultisetSnoc(fs);
    }
  }

  lemma MultisetSnoc(fs: seq<Fragment>)
    requires fs != []
    ensures multiset(fs) == multiset(fs[..|fs| - 1]) + multiset{fs[|fs| - 1]}
  {
    assert fs == fs[..|fs| - 1] + [fs[|fs| - 1]];
  }

  lemma InsertHolds(u: AvlTree.Tree, f: Fragment, v: AvlTree.Tree, a: multiset<Fragment>, b: multiset<Fragment>)
    requires v == AvlTree.Insert(u, f) && AvlTree.Ascending(AvlTree.InOrder(u)) && multiset(AvlTree.InOrder(u)) == a + b
    ensures AvlTree.Ascending(AvlTree.InOrder(v)) && multiset(AvlTree.InOrder(v)) == a + (b + multiset{f})
  {
    AvlContents.InsertIsPutInOrder(u, f);
  }

  /** The contents of an index. */
  datatype Indexed = Indexed(exact: map<Hash, Fragment>, semantic: seq<Fragment>, positional: AvlTree.Tree)

  function WithAll(i: Indexed, fs: seq<Fragment>): Indexed {
    Indexed(Upserted(i.exact, fs), i.semantic + fs, Inserted(i.positional, fs))
  }

  lemma WithOneMore(i: Indexed, fs: seq<Fragment>, f: Fragment)
    ensures WithAll(i, fs + [f]) ==
      var j := WithAll(i, fs); Indexed(j.exact[f.hash := f], j.semantic + [f], AvlTree.Insert(j.positional, f))
  {
    assert (fs + [f])[..|fs|] == fs;
    assert i.semantic + (fs + [f]) == i.semantic + fs + [f];
  }

  lemma WithNone(i: Indexed)
    ensures WithAll(i, []) == i
  {
  }

  /** Whatever was indexed last is found again under its hash, in the ranked list and in
      the tree. */
  lemma PrefilledAreIndexed(i: Indexed, fs: seq<Fragment>)
    requires AvlTree.Ascending(AvlTree.InOrder(i.positional))
    ensures var j := WithAll(i, fs);
      && j.semantic == i.semantic + fs
      && multiset(AvlTree.InOrder(j.positional)) == multiset(AvlTree.InOrder(i.positional)) + multiset(fs)
      && (forall f :: f in fs ==> f.hash in j.exact && j.exact[f.hash].hash == f.hash && j.exact[f.hash] in fs)
  {
    InsertedHolds(i.positional, fs);
    var j := WithAll(i, fs);
    forall f | f in fs ensures f.hash in j.exact && j.exact[f.hash].hash == f.hash && j.exact[f.hash] in fs {
      HasHashIff(fs, f.hash);
      UpsertedLookup(i.exact, fs, f.hash);
    }
  }

  // --- The bitmap -----------------------------------------------------------------

  /** Marks the tokens of a span that lie within the prompt. */
  method Mark(coverage: array<bool>, start: int, end: int)
    modifies coverage
    ensures forall i :: 0 <= i < coverage.Length ==> coverage[i] == (old(coverage[i]) || start <= i <= end)
  {
    var i := if start < 0 then 0 else start;
    var stop := Min(end + 1, coverage.Length);
    while i < stop
      invariant 0 <= i && start <= i && (i <= stop || i == start || i == 0)
      invariant forall k :: 0 <= k < coverage.Length ==> coverage[k] == (old(coverage[k]) || (start <= k <= end && k < i))
    {
      coverage[i] := true;
      i := i + 1;
    }
  }

  predicate IsCoveredEnd(coverage: seq<bool>, end: int) {
    && -1 <= end < |coverage| && (0 <= end ==> coverage[end])
    && forall i :: end < i < |coverage| ==> !coverage[i]
  }

  /** The rightmost covered token, or -1. */
  method CoveredEnd(coverage: array<bool>) returns (end: int)
    ensures IsCoveredEnd(coverage[..], end)
  {
    end := coverage.Length - 1;
    while 0 <= end && !coverage[end]
      invariant -1 <= end < coverage.Length
      invariant forall i :: end < i < coverage.Length ==> !coverage[i]
    {
      end := end - 1;
    }
  }

  /** Exactly the maximal uncovered runs, left to right. */
  method FindGaps(coverage: array<bool>) returns (gaps: seq<Range>)
    ensures AreGaps(coverage[..], gaps)
  {
    gaps := [];
    var i := 0;
    var n := coverage.Length;
    while i < n
      invariant i <= n && GapsUpTo(coverage[..], gaps, i)
      invariant i == 0 || i == n || coverage[i - 1] || (gaps != [] && gaps[|gaps| - 1].1 == i - 1 && coverage[i])
      invariant gaps != [] && gaps[|gaps| - 1].1 == i - 1 && i < n ==> coverage[i]
    {
      if !coverage[i] {
        var start := i;
        while i < n && !coverage[i]
          invariant start <= i <= n
          invariant forall k :: start <= k < i ==> !coverage[k]
        {
          i := i + 1;
        }
        GapAdded(coverage[..], gaps, start, i);
        gaps := gaps + [(start, i - 1)];
      } else {
        CoveredAdded(coverage[..], gaps, i);
        i := i + 1;
      }
    }
  }

  lemma GapAdded(coverage: seq<bool>, gaps: seq<Range>, start: nat, i: nat)
    requires GapsUpTo(coverage, gaps, start) && start < i <= |coverage|
    requires forall k :: start <= k < i ==> !coverage[k]
    requires start == 0 || coverage[start - 1]
    requires i == |coverage| || coverage[i]
    ensures GapsUpTo(coverage, gaps + [(start, i - 1)], i)
  {
    var more := gaps + [(start, i - 1)];
    assert MaximalGap(coverage, (start, i - 1));
    forall j | 0 <= j < i && !coverage[j] ensures exists k :: 0 <= k < |more| && Inside(more[k], j) {
      if j < start {
        var k :| 0 <= k < |gaps| && Inside(gaps[k], j);
        assert Inside(more[k], j);
      } else {
        assert Inside(more[|gaps|], j);
      }
    }
  }

  lemma CoveredAdded(coverage: seq<bool>, gaps: seq<Range>, i: nat)
    requires GapsUpTo(coverage, gaps, i) && i < |coverage| && coverage[i]
    ensures GapsUpTo(coverage, gaps, i + 1)
  {
  }

  /** How many tokens are covered. */
  function CountTrue(coverage: seq<bool>): (n: nat)
    ensures n <= |coverage|
  {
    if coverage == [] then 0 else CountTrue(coverage[..|coverage| - 1]) + if coverage[|coverage| - 1] then 1 else 0
  }

  /** It is the number of covered positions. */
  lemma {:induction false} CountTrueIsSize(coverage: seq<bool>)
    ensures CountTrue(coverage) == |Positions(coverage)|
  {
    if coverage != [] {
      var k := |coverage| - 1;
      CountTrueIsSize(coverage[..k]);
      assert Positions(coverage) == Positions(coverage[..k]) + if coverage[k] then {k} else {};
    }
  }

  function Positions(coverage: seq<bool>): set<int> { set i | 0 <= i < |coverage| && coverage[i] }

  method Sum(coverage: array<bool>) returns (n: nat)
    ensures n == CountTrue(coverage[..])
  {
    n := 0;
    for i := 0 to coverage.Length
      invariant n == CountTrue(coverage[..i])
    {
      assert coverage[..i + 1][..i] == coverage[..i];
      n := n + if coverage[i] then 1 else 0;
    }
    assert coverage[..coverage.Length] == coverage[..];
  }

  /** Nothing inside the gap is covered. */
  predicate IsOpen(coverage: seq<bool>, gap: Range) {
    0 <= gap.0 <= gap.1 < |coverage| && forall i :: gap.0 <= i <= gap.1 ==> !coverage[i]
  }

  /** The gaps from the `k`-th on are still open. */
  predicate OpenFrom(coverage: seq<bool>, gaps: seq<Range>, k: nat) {
    forall j :: k <= j < |gaps| ==> IsOpen(coverage, gaps[j])
  }

  /** Covering tokens of one gap leaves the later ones open. */
  lemma StaysOpen(start: seq<bool>, before: seq<bool>, after: seq<bool>, gaps: seq<Range>, k: nat)
    requires AreGaps(start, gaps) && k < |gaps| && OpenFrom(before, gaps, k) && |before| == |after|
    requires forall i :: 0 <= i < |after| && !Inside(gaps[k], i) ==> after[i] == before[i]
    ensures OpenFrom(after, gaps, k + 1)
  {
  }

  /** Since `start`, the first `reached` tokens of a gap were covered and nothing else. */
  predicate FilledTo(start: seq<bool>, coverage: seq<bool>, gap: Range, reached: nat) {
    |coverage| == |start| && forall i :: 0 <= i < |coverage| ==> coverage[i] == (start[i] || gap.0 <= i < gap.0 + reached)
  }

  lemma ClearAhead(start: seq<bool>, coverage: seq<bool>, gap: Range, f: Fragment)
    requires IsOpen(start, gap) && FilledTo(start, coverage, gap, f.start) && gap.0 + f.end <= gap.1
    ensures Clear(coverage, f.(start := gap.0 + f.start, end := gap.0 + f.end))
  {
  }

  // --- The engine -----------------------------------------------------------------

  datatype Config = Config(
    maxGapTokens: int, maxPrefixAttempts: int, verifyTokens: bool, indexPrefilled: bool, windowSize: nat)

  datatype Result = Result(
    fragments: seq<Fragment>, coverageRatio: real, missing: seq<Range>, prefillInvoked: bool)

  /** What an assembled fragment must be: of the requested model and, with token checking
      on, genuine. */
  predicate Fit(h: Hashing, c: Config, f: Fragment, prompt: seq<int>, model: string) {
    f.model == model && (c.verifyTokens ==> Genuine(h, f, prompt, model))
  }

  predicate AllFit(h: Hashing, c: Config, fs: seq<Fragment>, prompt: seq<int>, model: string) {
    forall k :: 0 <= k < |fs| ==> Fit(h, c, fs[k], prompt, model)
  }

  lemma AllFitSnoc(h: Hashing, c: Config, fs: seq<Fragment>, f: Fragment, prompt: seq<int>, model: string)
    requires AllFit(h, c, fs, prompt, model) && Fit(h, c, f, prompt, model)
    ensures AllFit(h, c, fs + [f], prompt, model)
  {
  }

  function WindowAt(prompt: seq<int>, i: nat, m: nat): seq<int>
    requires i + m <= |prompt|
  {
    prompt[i..i + m]
  }

  /** No `m` tokens in a row occur at two places of the prompt. */
  predicate NoWindowRepeats(prompt: seq<int>, m: nat) {
    0 < m && forall i, j :: 0 <= i < j <= |prompt| - m ==> WindowAt(prompt, i, m) != WindowAt(prompt, j, m)
  }

  predicate AllSpan(fs: seq<Fragment>, m: nat) { forall k :: 0 <= k < |fs| ==> Span(fs[k]) >= m }

  /** Equal slices start with equal windows. */
  lemma SlicesShareWindow(s: seq<int>, a: nat, b: nat, n: nat, m: nat)
    requires a + n <= |s| && b + n <= |s| && m <= n && s[a..a + n] == s[b..b + n]
    ensures WindowAt(s, a, m) == WindowAt(s, b, m)
  {
    assert s[a..a + m] == s[a..a + n][..m] && s[b..b + m] == s[b..b + n][..m];
  }

  /** With token checking, fragments of at least `m` tokens each that share no token share
      no hash either, in a prompt in which no `m` tokens repeat. */
  lemma NoRepeatNoSharedHash(h: Hashing, c: Config, fs: seq<Fragment>, prompt: seq<int>, model: string, m: nat)
    requires Ideal(h) && c.verifyTokens && AllFit(h, c, fs, prompt, model) && Apart(fs, |prompt|)
    requires NoWindowRepeats(prompt, m) && AllSpan(fs, m)
    ensures DistinctHashes(fs)
  {
    forall j, k | 0 <= j < k < |fs| ensures fs[j].hash != fs[k].hash {
      if fs[j].hash == fs[k].hash {
        SharedHashRepeatsTokens(h, fs[j], fs[k], prompt, model);
        var a, b, n := fs[j].start, fs[k].start, Span(fs[j]);
        assert |prompt[fs[j].start..fs[j].end + 1]| == |prompt[fs[k].start..fs[k].end + 1]|;
        SlicesShareWindow(prompt, a, b, n, m);
        assert false;
      }
    }
  }

  lemma PrefixGrows(a: seq<Fragment>, b: seq<Fragment>, f: Fragment)
    requires a <= b
    ensures a <= b + [f]
  {
  }

  lemma SliceOfSlice(s: seq<int>, a: nat, b: nat, c: nat, d: nat)
    requires a <= b <= |s| && c <= d <= b - a
    ensures s[a..b][c..d] == s[a + c..a + d]
  {
    var x, y := s[a..b][c..d], s[a + c..a + d];
    assert |x| == |y|;
    forall i | 0 <= i < |x| ensures x[i] == y[i] {
      assert x[i] == s[a..b][c + i] == s[a + (c + i)];
    }
  }

  /** The pruned search misses no fragment that starts within the gap. */
  lemma AdjacentIsFound(t: AvlTree.Tree, position: int, gap: int, f: Fragment)
    requires AvlTree.Ascending(AvlTree.InOrder(t)) && f in AvlTree.InOrder(t) && 0 <= f.start - position <= gap
    ensures f in AvlQueries.FindAdjacent(t, position, gap)
  {
    AvlQueries.FindAdjacentExact(t, position, gap, f);
    var copies, hits := AvlQueries.Copies(AvlTree.InOrder(t), f), |AvlQueries.Hits(f, position, gap)|;
    assert 1 <= hits && 1 <= copies;
    ProductIsPositive(copies, hits);
    assert f in multiset(AvlQueries.FindAdjacent(t, position, gap));
  }

  lemma ProductIsPositive(a: nat, b: nat)
    requires 1 <= a && 1 <= b
    ensures 1 <= a * b
  {
  }

  /** A candidate that may extend coverage beyond token `end`. */
  predicate Eligible(e: Engine, f: Fragment, prompt: seq<int>, model: string, end: int) {
    e.Accepts(f, prompt, model) && end < f.start && f.end < |prompt|
  }

  /** The exact index offers a fragment for the prefix that hashes to `hash`. */
  predicate Usable(exact: map<Hash, Fragment>, hash: Hash, model: string, visible: Fragment -> bool) {
    hash in exact && exact[hash].model == model && exact[hash].start == 0 && visible(exact[hash])
  }

  predicate UsableAt(h: Hashing, exact: map<Hash, Fragment>, prompt: seq<int>, i: nat, model: string, visible: Fragment -> bool)
    requires i <= |prompt|
  {
    Usable(exact, h.joined(prompt[..i]), model, visible) || Usable(exact, h.tuple(prompt[..i]), model, visible)
  }

  /** The fragment offered: the one under the first hash, or else under the second. */
  function OfferAt(h: Hashing, exact: map<Hash, Fragment>, prompt: seq<int>, i: nat, model: string, visible: Fragment -> bool): (f: Option<Fragment>)
    requires i <= |prompt|
    ensures f.Some? <==> UsableAt(h, exact, prompt, i, model, visible)
  {
    if Usable(exact, h.joined(prompt[..i]), model, visible) then Some(exact[h.joined(prompt[..i])])
    else if Usable(exact, h.tuple(prompt[..i]), model, visible) then Some(exact[h.tuple(prompt[..i])])
    else None
  }

  /** The prefix lengths a scan tries: from the whole prompt down, `step` at a time. */
  predicate Tried(from: int, step: nat, i: int)
    requires 0 < step
    decreases if from < 0 then 0 else from
  {
    0 < from && (i == from || Tried(from - step, step, i))
  }

  lemma {:induction false} TriedIsWithin(from: int, step: nat, i: int)
    requires 0 < step && Tried(from, step, i)
    ensures 0 < i <= from
    decreases if from < 0 then 0 else from
  {
    if i != from {
      TriedIsWithin(from - step, step, i);
    }
  }

  lemma {:induction false} NextIsTried(from: int, step: nat, i: int)
    requires 0 < step && Tried(from, step, i) && 0 < i - step
    ensures Tried(from, step, i - step)
    decreases if from < 0 then 0 else from
  {
    if i != from {
      NextIsTried(from - step, step, i);
    }
  }

  /** Between one tried length and the next nothing is tried. */
  lemma {:induction false} TriedApart(from: int, step: nat, i: int, j: int)
    requires 0 < step && Tried(from, step, i) && Tried(from, step, j) && j < i
    ensures j <= i - step
    decreases if from < 0 then 0 else from
  {
    if i == from {
      TriedIsWithin(from - step, step, j);
    } else {
      TriedIsWithin(from - step, step, i);
      TriedApart(from - step, step, i, j);
    }
  }

  /** A scan of step one tries every prefix. */
  lemma {:induction false} StepOneTriesAll(from: int, i: int)
    requires 0 < i <= from
    ensures Tried(from, 1, i)
    decreases from
  {
    if i < from {
      StepOneTriesAll(from - 1, i);
    }
  }

  class Engine {
    const index: Index
    const h: Hashing
    const config: Config
    const visible: Fragment -> bool
    const kvSize: nat -> real

    /** Hashing is ideal and everything indexed is honest. */
    ghost predicate Valid()
      reads this, index
    {
      Ideal(h) && 0 < config.windowSize && index.Sound(h)
    }

    constructor (index: Index, h: Hashing, config: Config, visible: Fragment -> bool, kvSize: nat -> real)
      requires Ideal(h) && 0 < config.windowSize && index.Sound(h)
      ensures Valid() && this.index == index && this.h == h && this.config == config && this.visible == visible
    {
      this.index, this.h, this.config, this.visible, this.kvSize := index, h, config, visible, kvSize;
    }

    /** Whether a candidate may cover its span of the prompt. */
    predicate Accepts(f: Fragment, prompt: seq<int>, model: string) {
      && f.model == model && visible(f)
      && (config.verifyTokens ==> Genuine(h, f, prompt, model))
    }

    /** A list of fragments and its bitmap: all may stand where they do, no two share a
        token, and the bitmap is the union of their spans. */
    ghost predicate Assembly(coverage: seq<bool>, fs: seq<Fragment>, prompt: seq<int>, model: string) {
      |coverage| == |prompt| && Tracks(coverage, fs) && AllFit(h, config, fs, prompt, model) && Apart(fs, |prompt|)
    }

    /** No tried prefix longer than `i` has a fragment in the exact index. */
    ghost predicate NoneLonger(exact: map<Hash, Fragment>, prompt: seq<int>, model: string, step: nat, i: int)
      requires 0 < step
    {
      forall j: nat :: i < j <= |prompt| && Tried(|prompt|, step, j) ==> !UsableAt(h, exact, prompt, j, model, visible)
    }

    /** The caller may see all of them. */
    predicate AllVisible(fs: seq<Fragment>) { forall k :: 0 <= k < |fs| ==> visible(fs[k]) }

    /** The longest tried prefix that the exact index offers a fragment for; the fragment
        spans exactly that prefix. */
    method LongestMatch(prompt: seq<int>, model: string, attempts: int) returns (best: Option<Fragment>)
      requires Valid()
      ensures var step := Step(|prompt|, attempts);
        && (best.None? ==> NoneLonger(index.exact, prompt, model, step, 0))
        && (best.Some? ==>
              && Genuine(h, best.value, prompt, model) && visible(best.value) && best.value.start == 0
              && Tried(|prompt|, step, best.value.end + 1)
              && OfferAt(h, index.exact, prompt, best.value.end + 1, model, visible) == best
              && NoneLonger(index.exact, prompt, model, step, best.value.end + 1))
    {
      best := None;
      var step := Step(|prompt|, attempts);
      var i := |prompt|;
      while i > 0
        invariant i <= |prompt| && best.None? && (0 < i ==> Tried(|prompt|, step, i))
        invariant NoneLonger(index.exact, prompt, model, step, i)
      {
        best := MatchAt(prompt, i, model);
        if best.Some? {
          return;
        }
        forall j: nat | j < i && Tried(|prompt|, step, j) ensures j <= i - step {
          TriedApart(|prompt|, step, i, j);
        }
        if 0 < i - step {
          NextIsTried(|prompt|, step, i);
        }
        i := i - step;
      }
    }

    /** One turn of the scan: both hashes of the prefix of length `i`. */
    method MatchAt(prompt: seq<int>, i: nat, model: string) returns (best: Option<Fragment>)
      requires Valid() && 0 < i <= |prompt|
      ensures best == OfferAt(h, index.exact, prompt, i, model, visible)
      ensures best.Some? ==>
        && Genuine(h, best.value, prompt, model) && visible(best.value)
        && best.value.start == 0 && best.value.end == i - 1
    {
      best := None;
      var hash := h.joined(prompt[..i]);
      if Usable(index.exact, hash, model, visible) {
        best := Some(index.exact[hash]);
        HashTellsLength(h, best.value, prompt[..i]);
        assert prompt[0..i] == prompt[..i];
      }
      hash := h.tuple(prompt[..i]);
      if Usable(index.exact, hash, model, visible)
        && (best.None? || i > best.value.end - best.value.start + 1) {
        best := Some(index.exact[hash]);
        HashTellsLength(h, best.value, prompt[..i]);
        assert prompt[0..i] == prompt[..i];
      }
    }

    /** The first adjacent candidate strictly beyond `end`; there is none exactly when no
        indexed fragment that starts within the permitted gap qualifies. */
    method FindNextAdjacent(prompt: seq<int>, model: string, end: int) returns (next: Option<Fragment>)
      requires Valid()
      ensures next.None? ==> NoneEligible(index.positional, prompt, model, end)
      ensures next.Some? ==> IsNext(index.positional, prompt, model, end, next.value)
    {
      var candidates := AvlQueries.FindAdjacent(index.positional, end, config.maxGapTokens);
      for k := 0 to |candidates|
        invariant forall j :: 0 <= j < k ==> !Eligible(this, candidates[j], prompt, model, end)
      {
        var f := candidates[k];
        if Accepts(f, prompt, model) && end < f.start && 0 <= f.start && f.end < |prompt| {
          return Some(f);
        }
      }
      forall f | f in AvlTree.InOrder(index.positional) && f.start - end <= config.maxGapTokens
        ensures !Eligible(this, f, prompt, model, end)
      {
        if end < f.start {
          AdjacentIsFound(index.positional, end, config.maxGapTokens, f);
        }
      }
      return None;
    }

    /** The first adjacent fragment, in the order the tree reports them, that may extend
        coverage beyond `end`. */
    ghost predicate IsNext(positional: AvlTree.Tree, prompt: seq<int>, model: string, end: int, f: Fragment) {
      var candidates := AvlQueries.FindAdjacent(positional, end, config.maxGapTokens);
      exists k :: 0 <= k < |candidates| && candidates[k] == f && Eligible(this, f, prompt, model, end)
        && forall j :: 0 <= j < k ==> !Eligible(this, candidates[j], prompt, model, end)
    }

    /** Next is not nearest: of two fragments that may extend coverage the tree reports the
        one nearer its root first, so that trees with the same contents give either. */
    lemma NextFollowsShape(near: Fragment, far: Fragment, prompt: seq<int>, model: string, end: int)
      requires Eligible(this, near, prompt, model, end) && Eligible(this, far, prompt, model, end)
      requires near.start < far.start <= end + config.maxGapTokens
      ensures var under, over := AvlTree.Bin(AvlTree.Bin(AvlTree.Tip, near, AvlTree.Tip), far, AvlTree.Tip), AvlTree.Bin(AvlTree.Tip, near, AvlTree.Bin(AvlTree.Tip, far, AvlTree.Tip));
        && AvlTree.InOrder(under) == AvlTree.InOrder(over)
        && IsNext(under, prompt, model, end, far) && IsNext(over, prompt, model, end, near)
    {
      var gap := config.maxGapTokens;
      var under, over := AvlTree.Bin(AvlTree.Bin(AvlTree.Tip, near, AvlTree.Tip), far, AvlTree.Tip), AvlTree.Bin(AvlTree.Tip, near, AvlTree.Bin(AvlTree.Tip, far, AvlTree.Tip));
      assert AvlQueries.FindAdjacent(under, end, gap)[0] == far;
      assert AvlQueries.FindAdjacent(over, end, gap)[0] == near;
    }

    /** An assembly is extended by the next fragment beyond its covered end. */
    ghost predicate ExtendsBy(positional: AvlTree.Tree, prompt: seq<int>, model: string, assembled: seq<Fragment>, f: Fragment) {
      exists end :: IsCoveredEnd(Bitmap(assembled, |prompt|), end) && end < |prompt| - 1 && IsNext(positional, prompt, model, end, f)
    }

    /** From position `from` on, an assembly was put together so. */
    ghost predicate Extension(positional: AvlTree.Tree, prompt: seq<int>, model: string, assembled: seq<Fragment>, from: nat) {
      forall k :: from <= k < |assembled| ==> ExtendsBy(positional, prompt, model, assembled[..k], assembled[k])
    }

    lemma ExtensionSnoc(positional: AvlTree.Tree, prompt: seq<int>, model: string, assembled: seq<Fragment>, from: nat, f: Fragment)
      requires Extension(positional, prompt, model, assembled, from) && ExtendsBy(positional, prompt, model, assembled, f)
      ensures Extension(positional, prompt, model, assembled + [f], from)
    {
      var more := assembled + [f];
      forall k | from <= k < |more| ensures ExtendsBy(positional, prompt, model, more[..k], more[k]) {
        assert more[..k] == assembled[..k];
        assert k == |assembled| ==> assembled[..k] == assembled;
      }
    }

    /** No fragment of a positional tree that starts within the permitted gap may extend
        coverage beyond `end`. */
    ghost predicate NoneEligible(positional: AvlTree.Tree, prompt: seq<int>, model: string, end: int) {
      forall f :: f in AvlTree.InOrder(positional) && f.start - end <= config.maxGapTokens ==>
        !Eligible(this, f, prompt, model, end)
    }

    /** Coverage reaches the end of the prompt, or cannot be extended further. */
    ghost predicate FullyExtended(positional: AvlTree.Tree, prompt: seq<int>, model: string, covered: seq<bool>) {
      forall end :: IsCoveredEnd(covered, end) ==> end == |prompt| - 1 || NoneEligible(positional, prompt, model, end)
    }

    /** Step 2: extends coverage to the right until the prompt is covered to its end or no
        adjacent fragment qualifies.  Every turn moves the covered end further right. */
    method Extend(prompt: seq<int>, model: string, coverage: array<bool>, soFar: seq<Fragment>) returns (assembled: seq<Fragment>)
      requires Valid() && coverage.Length == |prompt|
      requires Assembly(coverage[..], soFar, prompt, model) && AllVisible(soFar)
      modifies coverage
      ensures Assembly(coverage[..], assembled, prompt, model) && soFar <= assembled && AllVisible(assembled)
      ensures FullyExtended(index.positional, prompt, model, coverage[..])
      ensures Extension(index.positional, prompt, model, assembled, |soFar|)
    {
      assembled := soFar;
      var end := CoveredEnd(coverage);
      while end < |prompt| - 1
        invariant IsCoveredEnd(coverage[..], end) && soFar <= assembled && AllVisible(assembled)
        invariant Assembly(coverage[..], assembled, prompt, model)
        invariant Extension(index.positional, prompt, model, assembled, |soFar|)
        decreases |prompt| - end
      {
        var next := FindNextAdjacent(prompt, model, end);
        if next.None? {
          break;
        }
        PrefixGrows(soFar, assembled, next.value);
        TracksIsBitmap(coverage[..], assembled);
        ExtensionSnoc(index.positional, prompt, model, assembled, |soFar|, next.value);
        assembled, end := ExtendBy(prompt, model, coverage, assembled, next.value, end);
      }
    }

    /** One turn of the extension: the covered end moves right. */
    method ExtendBy(prompt: seq<int>, model: string, coverage: array<bool>, soFar: seq<Fragment>, f: Fragment, ghost was: int)
        returns (assembled: seq<Fragment>, end: int)
      requires coverage.Length == |prompt| && Eligible(this, f, prompt, model, was) && IsCoveredEnd(coverage[..], was)
      requires Assembly(coverage[..], soFar, prompt, model)
      modifies coverage
      ensures assembled == soFar + [f]
      ensures Assembly(coverage[..], assembled, prompt, model)
      ensures IsCoveredEnd(coverage[..], end) && was < end
    {
      assembled := Take(prompt, model, coverage, soFar, f);
      assert coverage[f.end];
      end := CoveredEnd(coverage);
    }

    /** Adds one fragment to the assembly, where nothing was covered, and marks its span. */
    method Take(prompt: seq<int>, model: string, coverage: array<bool>, soFar: seq<Fragment>, f: Fragment) returns (assembled: seq<Fragment>)
      requires coverage.Length == |prompt| && Fit(h, config, f, prompt, model) && Clear(coverage[..], f)
      requires Assembly(coverage[..], soFar, prompt, model)
      modifies coverage
      ensures assembled == soFar + [f]
      ensures Assembly(coverage[..], assembled, prompt, model)
      ensures forall i :: 0 <= i < coverage.Length ==> coverage[i] == (old(coverage[i]) || f.start <= i <= f.end)
    {
      ghost var before := coverage[..];
      Mark(coverage, f.start, f.end);
      TracksSnoc(before, coverage[..], soFar, f);
      ApartSnoc(before, soFar, f);
      AllFitSnoc(h, config, soFar, f, prompt, model);
      assembled := soFar + [f];
    }

    /** The first of some candidates that lies inside a gap and is accepted. */
    function FirstInside(candidates: seq<Fragment>, prompt: seq<int>, model: string, gap: Range): Option<Fragment> {
      if candidates == [] then None
      else if gap.0 <= candidates[0].start && candidates[0].end <= gap.1 && Accepts(candidates[0], prompt, model) then
        Some(candidates[0])
      else FirstInside(candidates[1..], prompt, model, gap)
    }

    /** What the three nearest fragments offer for the first `n` gaps. */
    ghost function Offers(semantic: seq<Fragment>, prompt: seq<int>, model: string, gaps: seq<Range>, n: nat): seq<Fragment>
      requires n <= |gaps|
    {
      if n == 0 then []
      else
        var pick := FirstInside(semantic[..Min(3, |semantic|)], prompt, model, gaps[n - 1]);
        Offers(semantic, prompt, model, gaps, n - 1) + if pick.Some? then [pick.value] else []
    }

    /** A candidate that may fill a gap. */
    predicate Fills(f: Fragment, prompt: seq<int>, model: string, gap: Range) {
      Accepts(f, prompt, model) && gap.0 <= f.start && f.end <= gap.1
    }

    /** The pick is the first candidate that fills the gap, and there is one unless none
        does. */
    lemma {:induction false} FirstInsideIsFirst(candidates: seq<Fragment>, prompt: seq<int>, model: string, gap: Range)
      ensures FirstInside(candidates, prompt, model, gap).Some? ==>
        exists k :: 0 <= k < |candidates| && candidates[k] == FirstInside(candidates, prompt, model, gap).value
          && Fills(candidates[k], prompt, model, gap) && forall j :: 0 <= j < k ==> !Fills(candidates[j], prompt, model, gap)
      ensures FirstInside(candidates, prompt, model, gap).None? <==>
        forall k :: 0 <= k < |candidates| ==> !Fills(candidates[k], prompt, model, gap)
    {
      if candidates != [] && !Fills(candidates[0], prompt, model, gap) {
        var rest := candidates[1..];
        FirstInsideIsFirst(rest, prompt, model, gap);
        assert forall k :: 0 <= k < |rest| ==> rest[k] == candidates[k + 1];
        var pick := FirstInside(rest, prompt, model, gap);
        if pick.Some? {
          var k :| 0 <= k < |rest| && rest[k] == pick.value
            && Fills(rest[k], prompt, model, gap) && forall j :: 0 <= j < k ==> !Fills(rest[j], prompt, model, gap);
          assert candidates[k + 1] == pick.value && forall j :: 0 <= j < k + 1 ==> !Fills(candidates[j], prompt, model, gap);
        } else if forall k :: 0 <= k < |rest| ==> !Fills(rest[k], prompt, model, gap) {
          forall k | 0 <= k < |candidates| ensures !Fills(candidates[k], prompt, model, gap) {
            if k > 0 {
              assert rest[k - 1] == candidates[k];
            }
          }
        }
      }
    }

    lemma FirstInsideIsAccepted(candidates: seq<Fragment>, prompt: seq<int>, model: string, gap: Range)
      ensures FirstInside(candidates, prompt, model, gap).Some? ==>
        Fills(FirstInside(candidates, prompt, model, gap).value, prompt, model, gap)
    {
      FirstInsideIsFirst(candidates, prompt, model, gap);
    }

    /** The `j`-th ranked fragment is one of the three nearest, and the first of them that
        fills the gap. */
    predicate IsPick(semantic: seq<Fragment>, prompt: seq<int>, model: string, gap: Range, j: int) {
      && 0 <= j < 3 && j < |semantic| && Fills(semantic[j], prompt, model, gap)
      && forall i :: 0 <= i < j ==> !Fills(semantic[i], prompt, model, gap)
    }

    /** Every gap that one of the first three ranked fragments fills gets the first of them
        that does, in the order of the gaps; the others get nothing. */
    lemma OffersAreFirstOfThree(semantic: seq<Fragment>, prompt: seq<int>, model: string, gaps: seq<Range>, n: nat)
      requires 0 < n <= |gaps|
      ensures var before, gap := Offers(semantic, prompt, model, gaps, n - 1), gaps[n - 1];
        && (forall j :: IsPick(semantic, prompt, model, gap, j) ==> Offers(semantic, prompt, model, gaps, n) == before + [semantic[j]])
        && ((forall j :: !IsPick(semantic, prompt, model, gap, j)) ==> Offers(semantic, prompt, model, gaps, n) == before)
    {
      var three, gap := semantic[..Min(3, |semantic|)], gaps[n - 1];
      FirstInsideIsFirst(three, prompt, model, gap);
      assert forall j :: 0 <= j < |three| ==> three[j] == semantic[j];
      var pick := FirstInside(three, prompt, model, gap);
      if pick.Some? {
        var k :| 0 <= k < |three| && three[k] == pick.value
          && Fills(three[k], prompt, model, gap) && forall j :: 0 <= j < k ==> !Fills(three[j], prompt, model, gap);
        assert IsPick(semantic, prompt, model, gap, k);
      }
    }

    lemma {:induction false} OffersAreVisible(semantic: seq<Fragment>, prompt: seq<int>, model: string, gaps: seq<Range>, n: nat)
      requires n <= |gaps|
      ensures AllVisible(Offers(semantic, prompt, model, gaps, n))
    {
      if n > 0 {
        OffersAreVisible(semantic, prompt, model, gaps, n - 1);
        FirstInsideIsAccepted(semantic[..Min(3, |semantic|)], prompt, model, gaps[n - 1]);
      }
    }

    /** Step 3: takes, for every gap, the first of the three nearest fragments that lies
        inside it and is accepted. */
    method FillGaps(prompt: seq<int>, model: string, coverage: array<bool>, soFar: seq<Fragment>)
        returns (assembled: seq<Fragment>, ghost gaps: seq<Range>)
      requires Valid() && coverage.Length == |prompt|
      requires Assembly(coverage[..], soFar, prompt, model)
      modifies coverage
      ensures AreGaps(old(coverage[..]), gaps)
      ensures assembled == soFar + Offers(index.semantic, prompt, model, gaps, |gaps|)
      ensures Assembly(coverage[..], assembled, prompt, model)
    {
      assembled := soFar;
      var todo := FindGaps(coverage);
      gaps := todo;
      for k := 0 to |todo|
        invariant OpenFrom(coverage[..], gaps, k)
        invariant assembled == soFar + Offers(index.semantic, prompt, model, gaps, k)
        invariant Assembly(coverage[..], assembled, prompt, model)
      {
        ghost var before := coverage[..];
        assembled := FillGap(prompt, model, coverage, assembled, todo[k]);
        StaysOpen(old(coverage[..]), before, coverage[..], gaps, k);
      }
    }

    /** Step 3 for one gap. */
    method FillGap(prompt: seq<int>, model: string, coverage: array<bool>, soFar: seq<Fragment>, gap: Range) returns (assembled: seq<Fragment>)
      requires coverage.Length == |prompt| && IsOpen(coverage[..], gap) && Assembly(coverage[..], soFar, prompt, model)
      modifies coverage
      ensures var pick := FirstInside(index.semantic[..Min(3, |index.semantic|)], prompt, model, gap);
        assembled == soFar + if pick.Some? then [pick.value] else []
      ensures Assembly(coverage[..], assembled, prompt, model)
      ensures forall i :: 0 <= i < coverage.Length && !Inside(gap, i) ==> coverage[i] == old(coverage[i])
    {
      assembled := soFar;
      var candidates := index.semantic[..Min(3, |index.semantic|)];
      var pick := Nearest(candidates, prompt, model, gap);
      FirstInsideIsAccepted(candidates, prompt, model, gap);
      if pick.Some? {
        assembled := Take(prompt, model, coverage, assembled, pick.value);
      }
    }

    /** The scan of the nearest fragments for one gap. */
    method Nearest(candidates: seq<Fragment>, prompt: seq<int>, model: string, gap: Range) returns (pick: Option<Fragment>)
      ensures pick == FirstInside(candidates, prompt, model, gap)
    {
      for k := 0 to |candidates|
        invariant FirstInside(candidates, prompt, model, gap) == FirstInside(candidates[k..], prompt, model, gap)
      {
        var f := candidates[k];
        if f.start >= gap.0 && f.end <= gap.1 && Accepts(f, prompt, model) {
          return Some(f);
        }
      }
      return None;
    }

    /** Since the index held `was`, exactly the fragments from the `from`-th on were indexed,
        if prefilled fragments are indexed at all. */
    ghost predicate IndexGrew(was: Indexed, fs: seq<Fragment>, from: nat)
      reads index
    {
      from <= |fs| && index.Contents() == if config.indexPrefilled then WithAll(was, fs[from..]) else was
    }

    /** One prefilled fragment: rebased onto the prompt, taken, and indexed when asked for. */
    method TakePrefilled(prompt: seq<int>, model: string, coverage: array<bool>, soFar: seq<Fragment>, f: Fragment, gap: Range, ghost start: seq<bool>,
        ghost was: Indexed, ghost from: nat) returns (assembled: seq<Fragment>)
      requires IndexGrew(was, soFar, from)
      requires Valid() && coverage.Length == |prompt| && IsOpen(start, gap) && FilledTo(start, coverage[..], gap, f.start)
      requires Genuine(h, f, prompt[gap.0..gap.1 + 1], model)
      requires Assembly(coverage[..], soFar, prompt, model)
      modifies coverage, index
      ensures Valid() && Assembly(coverage[..], assembled, prompt, model)
      ensures assembled == soFar + [f.(start := gap.0 + f.start, end := gap.0 + f.end)]
      ensures IndexGrew(was, assembled, from)
      ensures FilledTo(start, coverage[..], gap, f.end + 1)
    {
      var moved: Fragment := f.(start := gap.0 + f.start, end := gap.0 + f.end);
      SliceOfSlice(prompt, gap.0, gap.1 + 1, f.start, f.end + 1);
      GenuineIsHonest(h, moved, prompt, model);
      ClearAhead(start, coverage[..], gap, f);
      assembled := Take(prompt, model, coverage, soFar, moved);
      IndexPrefilled(moved, soFar, was, from);
    }

    /** A prefilled fragment enters every sub-index when that is asked for. */
    method IndexPrefilled(f: Fragment, ghost soFar: seq<Fragment>, ghost was: Indexed, ghost from: nat)
      requires Valid() && Honest(h, f) && IndexGrew(was, soFar, from)
      modifies index
      ensures Valid() && IndexGrew(was, soFar + [f], from)
    {
      assert (soFar + [f])[from..] == soFar[from..] + [f];
      WithOneMore(was, soFar[from..], f);
      if config.indexPrefilled {
        HonestInsert(h, index.exact, index.semantic, index.positional, f);
        index.Insert(f);
      }
    }

    /** Step 4 for one gap: the prefilled windows cover exactly the gap. */
    method PrefillGap(prompt: seq<int>, model: string, coverage: array<bool>, soFar: seq<Fragment>, gap: Range,
        ghost was: Indexed, ghost from: nat) returns (assembled: seq<Fragment>)
      requires IndexGrew(was, soFar, from)
      requires Valid() && coverage.Length == |prompt| && IsOpen(coverage[..], gap)
      requires Assembly(coverage[..], soFar, prompt, model)
      modifies coverage, index
      ensures Valid() && Assembly(coverage[..], assembled, prompt, model)
      ensures |soFar| < |assembled| && soFar <= assembled && IndexGrew(was, assembled, from)
      ensures forall i :: 0 <= i < coverage.Length ==> coverage[i] == (old(coverage[i]) || Inside(gap, i))
    {
      var tokens := prompt[gap.0..gap.1 + 1];
      var windows;
      ghost var cut;
      windows, cut := KvFragments(h, tokens, model, config.windowSize, kvSize(|tokens|));
      assembled := soFar;
      ghost var start, reached := coverage[..], 0;
      TileAt(h, windows, tokens, model, |tokens|, 0);
      for k := 0 to |windows|
        invariant Valid() && Assembly(coverage[..], assembled, prompt, model)
        invariant reached == if k == |windows| then |tokens| else windows[k].start
        invariant |assembled| == |soFar| + k && soFar <= assembled && IndexGrew(was, assembled, from)
        invariant FilledTo(start, coverage[..], gap, reached)
      {
        TileAt(h, windows, tokens, model, |tokens|, k);
        assembled := TakePrefilled(prompt, model, coverage, assembled, windows[k], gap, start, was, from);
        reached := windows[k].end + 1;
      }
    }

    /** Step 4 for one gap: prefilled when it exceeds the threshold, left alone otherwise. */
    method Settle(prompt: seq<int>, model: string, coverage: array<bool>, soFar: seq<Fragment>, gap: Range,
        ghost was: Indexed, ghost from: nat) returns (assembled: seq<Fragment>, long: bool)
      requires IndexGrew(was, soFar, from)
      requires Valid() && coverage.Length == |prompt| && IsOpen(coverage[..], gap)
      requires Assembly(coverage[..], soFar, prompt, model)
      modifies coverage, index
      ensures Valid() && Assembly(coverage[..], assembled, prompt, model)
      ensures soFar <= assembled && (long <==> Length(gap) > config.maxGapTokens)
      ensures forall i :: 0 <= i < coverage.Length ==> coverage[i] == (old(coverage[i]) || (long && Inside(gap, i)))
      ensures IndexGrew(was, assembled, from)
    {
      long := Length(gap) > config.maxGapTokens;
      assembled := soFar;
      if long {
        assembled := PrefillGap(prompt, model, coverage, assembled, gap, was, from);
      }
    }

    /** Step 4: prefills every gap longer than the threshold; the gaps are all reported. */
    method PrefillGaps(prompt: seq<int>, model: string, coverage: array<bool>, soFar: seq<Fragment>)
        returns (assembled: seq<Fragment>, missing: seq<Range>, invoked: bool)
      requires Valid() && coverage.Length == |prompt|
      requires Assembly(coverage[..], soFar, prompt, model)
      modifies coverage, index
      ensures Valid() && Assembly(coverage[..], assembled, prompt, model)
      ensures soFar <= assembled && AreGaps(old(coverage[..]), missing)
      ensures invoked <==> AnyLong(missing, |missing|, config.maxGapTokens)
      ensures forall i :: 0 <= i < coverage.Length ==>
        coverage[i] == (old(coverage[i]) || InLongGap(missing, |missing|, config.maxGapTokens, i))
      ensures IndexGrew(old(index.Contents()), assembled, |soFar|)
    {
      assembled, invoked := soFar, false;
      ghost var was := index.Contents();
      WithNone(was);
      missing := FindGaps(coverage);
      for k := 0 to |missing|
        invariant OpenFrom(coverage[..], missing, k)
        invariant Valid() && Assembly(coverage[..], assembled, prompt, model)
        invariant soFar <= assembled && (invoked <==> AnyLong(missing, k, config.maxGapTokens))
        invariant forall i :: 0 <= i < coverage.Length ==>
          coverage[i] == (old(coverage[i]) || InLongGap(missing, k, config.maxGapTokens, i))
        invariant IndexGrew(was, assembled, |soFar|)
      {
        ghost var before := coverage[..];
        var long;
        assembled, long := Settle(prompt, model, coverage, assembled, missing[k], was, |soFar|);
        StaysOpen(old(coverage[..]), before, coverage[..], missing, k);
        invoked := invoked || long;
      }
    }

    /** Step 5: the first fragment of every hash, by start. */
    method DeduplicateAndSort(fs: seq<Fragment>) returns (r: seq<Fragment>)
      ensures r == SortByStart(Dedup(fs))
      ensures ByStart(r) && multiset(r) == multiset(Dedup(fs))
    {
      var seen: set<Hash> := {};
      var unique: seq<Fragment> := [];
      for k := 0 to |fs|
        invariant unique == Dedup(fs[..k])
        invariant forall hash :: hash in seen <==> HasHash(fs[..k], hash)
      {
        assert fs[..k + 1][..k] == fs[..k];
        if fs[k].hash !in seen {
          seen := seen + {fs[k].hash};
          unique := unique + [fs[k]];
        }
      }
      assert fs[..|fs|] == fs;
      SortSorts(unique);
      r := SortByStart(unique);
    }

    /** What the first three steps do with the contents of the index: the longest match
        leads and is all there is at first, the next adjacent fragments extend it one after
        another as far as they can, every gap then left gets
        the first of the three nearest fragments that fits inside, and the caller may see
        all that is taken. */
    ghost predicate Gathers(exact: map<Hash, Fragment>, semantic: seq<Fragment>, positional: AvlTree.Tree,
        prompt: seq<int>, model: string, t: Trace)
    {
      && IsMatch(h, config, exact, visible, prompt, model, t.matched) && t.matched <= t.extended
      && LeadsWithMatch(h, config, exact, visible, prompt, model, t.extended)
      && Extension(positional, prompt, model, t.extended, |t.matched|)
      && FullyExtended(positional, prompt, model, Bitmap(t.extended, |prompt|))
      && AreGaps(Bitmap(t.extended, |prompt|), t.gaps)
      && t.gathered == t.extended + Offers(semantic, prompt, model, t.gaps, |t.gaps|)
      && AllVisible(t.gathered)
    }

    /** Steps 1 to 3: what the indices have for a prompt. */
    method Gather(prompt: seq<int>, model: string, coverage: array<bool>) returns (assembled: seq<Fragment>, ghost trace: Trace)
      requires Valid() && coverage.Length == |prompt| && forall i :: 0 <= i < coverage.Length ==> !coverage[i]
      modifies coverage
      ensures Assembly(coverage[..], assembled, prompt, model)
      ensures assembled == trace.gathered
      ensures Gathers(index.exact, index.semantic, index.positional, prompt, model, trace)
    {
      assembled := Match(prompt, model, coverage);
      ghost var first := assembled;
      assembled := Extend(prompt, model, coverage, assembled);
      ghost var extended := assembled;
      LeadsOn(h, config, index.exact, visible, prompt, model, first, extended);
      TracksIsBitmap(coverage[..], extended);
      ghost var gaps;
      assembled, gaps := FillGaps(prompt, model, coverage, assembled);
      OffersAreVisible(index.semantic, prompt, model, gaps, |gaps|);
      trace := Trace(first, extended, gaps, assembled);
    }

    /** Step 1: the longest match, taken if there is one. */
    method Match(prompt: seq<int>, model: string, coverage: array<bool>) returns (assembled: seq<Fragment>)
      requires Valid() && coverage.Length == |prompt| && forall i :: 0 <= i < coverage.Length ==> !coverage[i]
      modifies coverage
      ensures Assembly(coverage[..], assembled, prompt, model) && AllVisible(assembled)
      ensures LeadsWithMatch(h, config, index.exact, visible, prompt, model, assembled)
      ensures IsMatch(h, config, index.exact, visible, prompt, model, assembled)
    {
      assembled := [];
      var longest := LongestMatch(prompt, model, config.maxPrefixAttempts);
      if longest.Some? {
        assembled := Take(prompt, model, coverage, assembled, longest.value);
        assert OffersPrefix(h, config, index.exact, visible, prompt, model, longest.value.end + 1);
      }
    }

    /** Rebuilds the context of a prompt.  `trace` is what the indices gave, `assembled` the
        list before deduplication and `covered` the final bitmap. */
    method RebuildContext(prompt: seq<int>, model: string)
        returns (r: Result, ghost trace: Trace, ghost assembled: seq<Fragment>, ghost covered: seq<bool>)
      requires Valid()
      modifies index
      ensures Valid()
      // Steps 1 to 3 use the index as it was; step 4 only adds to their outcome.
      ensures prompt != [] ==> Gathers(old(index.exact), old(index.semantic), old(index.positional), prompt, model, trace)
      ensures prompt != [] ==> trace.gathered <= assembled && AreGaps(Bitmap(trace.gathered, |prompt|), r.missing)
      ensures r.fragments == SortByStart(Dedup(assembled)) && ByStart(r.fragments)
      ensures forall f :: f in r.fragments ==> Fit(h, config, f, prompt, model)
      ensures Assembly(covered, assembled, prompt, model)
      // The list returned covers what the ratio counts exactly when no hash repeats.
      ensures Tracks(covered, r.fragments) <==> DistinctHashes(assembled)
      // With token checking, so it does for a prompt in which no window repeats.
      ensures config.verifyTokens ==> forall m: nat :: NoWindowRepeats(prompt, m) && AllSpan(assembled, m) ==> Tracks(covered, r.fragments)
      ensures r.coverageRatio == if prompt == [] then 1.0 else (CountTrue(covered) as real) / (|prompt| as real)
      ensures ShortGapsAreOpen(covered, r.missing, config.maxGapTokens)
      ensures r.prefillInvoked <==> AnyLong(r.missing, |r.missing|, config.maxGapTokens)
      // What was prefilled is indexed, if that is asked for, and nothing else.
      ensures IndexGrew(old(index.Contents()), assembled, |trace.gathered|)
      ensures config.indexPrefilled ==>
        var prefilled := assembled[|trace.gathered|..];
        && index.semantic == old(index.semantic) + prefilled
        && multiset(AvlTree.InOrder(index.positional)) == multiset(AvlTree.InOrder(old(index.positional))) + multiset(prefilled)
        && (forall f :: f in prefilled ==> f.hash in index.exact && index.exact[f.hash].hash == f.hash && index.exact[f.hash] in prefilled)
      ensures !config.indexPrefilled ==> index.Contents() == old(index.Contents())
    {
      trace, assembled, covered := Trace([], [], [], []), [], [];
      if prompt == [] {
        WithNone(index.Contents());
        r := Result([], 1.0, [], false);
        return;
      }
      var coverage := new bool[|prompt|](i => false);
      var taken;
      taken, trace := Gather(prompt, model, coverage);
      ghost var before := coverage[..];
      TracksIsBitmap(before, taken);
      var missing, invoked;
      taken, missing, invoked := PrefillGaps(prompt, model, coverage, taken);
      covered := coverage[..];
      LeftOpen(before, covered, missing, config.maxGapTokens);
      ResultCoversIff(taken, covered);
      if config.verifyTokens {
        forall m: nat | NoWindowRepeats(prompt, m) && AllSpan(taken, m) ensures DistinctHashes(taken) {
          NoRepeatNoSharedHash(h, config, taken, prompt, model, m);
        }
      }
      PrefilledAreIndexed(old(index.Contents()), taken[|trace.gathered|..]);
      var count := Sum(coverage);
      var unique := Finish(taken, prompt, model);
      assembled := taken;
      r := Result(unique, (count as real) / (|prompt| as real), missing, invoked);
    }

    method Finish(taken: seq<Fragment>, prompt: seq<int>, model: string) returns (unique: seq<Fragment>)
      requires AllFit(h, config, taken, prompt, model)
      ensures unique == SortByStart(Dedup(taken)) && ByStart(unique)
      ensures forall f :: f in unique ==> Fit(h, config, f, prompt, model)
    {
      unique := DeduplicateAndSort(taken);
      DedupMembers(taken);
      SortMembers(Dedup(taken));
    }
  }

  /** The match, the assembly after extension, the gaps it leaves, and the assembly once they have been
      filled from the semantic index. */
  datatype Trace = Trace(matched: seq<Fragment>, extended: seq<Fragment>, gaps: seq<Range>, gathered: seq<Fragment>)

  /** The union of the spans of `fs` over a prompt of `n` tokens. */
  ghost function Bitmap(fs: seq<Fragment>, n: nat): seq<bool> { seq(n, i => CoveredBy(fs, i)) }

  lemma TracksIsBitmap(coverage: seq<bool>, fs: seq<Fragment>)
    requires Tracks(coverage, fs)
    ensures coverage == Bitmap(fs, |coverage|)
  {
  }

  lemma LeadsOn(h: Hashing, c: Config, exact: map<Hash, Fragment>, visible: Fragment -> bool,
      prompt: seq<int>, model: string, first: seq<Fragment>, more: seq<Fragment>)
    requires LeadsWithMatch(h, c, exact, visible, prompt, model, first) && first <= more
    ensures LeadsWithMatch(h, c, exact, visible, prompt, model, more)
  {
  }

  /** The exact index offers a fragment for the tried prefix of length `i`. */
  predicate OffersPrefix(h: Hashing, c: Config, exact: map<Hash, Fragment>, visible: Fragment -> bool,
      prompt: seq<int>, model: string, i: nat)
  {
    i <= |prompt| && Tried(|prompt|, Step(|prompt|, c.maxPrefixAttempts), i) && UsableAt(h, exact, prompt, i, model, visible)
  }

  /** If the exact index offers a fragment for some tried prefix, the assembly starts with
      one that spans the longest such prefix. */
  ghost predicate LeadsWithMatch(h: Hashing, c: Config, exact: map<Hash, Fragment>, visible: Fragment -> bool,
      prompt: seq<int>, model: string, assembled: seq<Fragment>)
  {
    forall i: nat :: OffersPrefix(h, c, exact, visible, prompt, model, i) ==>
      assembled != [] && assembled[0].start == 0 && i <= assembled[0].end + 1 && Genuine(h, assembled[0], prompt, model)
  }

  /** Nothing if no tried prefix is offered, and otherwise just the fragment offered for the
      longest. */
  ghost predicate IsMatch(h: Hashing, c: Config, exact: map<Hash, Fragment>, visible: Fragment -> bool,
      prompt: seq<int>, model: string, matched: seq<Fragment>)
  {
    if matched == [] then forall i: nat :: !OffersPrefix(h, c, exact, visible, prompt, model, i)
    else exists i: nat ::
      && OffersPrefix(h, c, exact, visible, prompt, model, i) && matched == [OfferAt(h, exact, prompt, i, model, visible).value]
      && forall j: nat :: OffersPrefix(h, c, exact, visible, prompt, model, j) ==> j <= i
  }

  /** What is uncovered is exactly the reported gaps within the threshold. */
  ghost predicate ShortGapsAreOpen(covered: seq<bool>, missing: seq<Range>, threshold: int) {
    forall i :: 0 <= i < |covered| ==>
      (!covered[i] <==> exists k :: 0 <= k < |missing| && Inside(missing[k], i) && Length(missing[k]) <= threshold)
  }

  /** One of the first `n` gaps exceeds the threshold. */
  predicate AnyLong(gaps: seq<Range>, n: nat, threshold: int)
    requires n <= |gaps|
  {
    n > 0 && (AnyLong(gaps, n - 1, threshold) || Length(gaps[n - 1]) > threshold)
  }

  /** Token `i` lies in one of the first `n` gaps that exceed the threshold. */
  predicate InLongGap(gaps: seq<Range>, n: nat, threshold: int, i: int)
    requires n <= |gaps|
  {
    n > 0 && (InLongGap(gaps, n - 1, threshold, i) || (Length(gaps[n - 1]) > threshold && Inside(gaps[n - 1], i)))
  }

  lemma {:induction false} LongGapIsListed(gaps: seq<Range>, n: nat, threshold: int, i: int)
    requires n <= |gaps|
    ensures InLongGap(gaps, n, threshold, i) <==> exists k :: 0 <= k < n && Length(gaps[k]) > threshold && Inside(gaps[k], i)
  {
    if n > 0 {
      LongGapIsListed(gaps, n - 1, threshold, i);
    }
  }

  /** After the long gaps are filled, what is uncovered is exactly the short gaps. */
  lemma LeftOpen(before: seq<bool>, after: seq<bool>, gaps: seq<Range>, threshold: int)
    requires AreGaps(before, gaps) && |after| == |before|
    requires forall i :: 0 <= i < |after| ==> after[i] == (before[i] || InLongGap(gaps, |gaps|, threshold, i))
    ensures ShortGapsAreOpen(after, gaps, threshold)
  {
    forall i | 0 <= i < |after|
      ensures !after[i] <==> exists k :: 0 <= k < |gaps| && Inside(gaps[k], i) && Length(gaps[k]) <= threshold
    {
      LongGapIsListed(gaps, |gaps|, threshold, i);
      GapsAreUncovered(before, gaps, i);
      OneGapEach(before, gaps, i);
    }
  }

  lemma OneGapEach(coverage: seq<bool>, gaps: seq<Range>, i: int)
    requires AreGaps(coverage, gaps)
    ensures forall j, k :: 0 <= j < |gaps| && 0 <= k < |gaps| && Inside(gaps[j], i) && Inside(gaps[k], i) ==> j == k
  {
  }

  /** Each tile carries the model and a hash of its own tokens, and the next starts where
      it ends. */
  lemma {:induction false} TileAt(h: Hashing, fs: seq<Fragment>, tokens: seq<int>, model: string, upTo: nat, k: nat)
    requires Tiles(h, fs, tokens, model, upTo) && k < |fs|
    ensures Genuine(h, fs[k], tokens, model) && fs[k].end < upTo
    ensures fs[k].end + 1 == if k + 1 == |fs| then upTo else fs[k + 1].start
    ensures fs[0].start == 0
  {
    var init, last := fs[..|fs| - 1], fs[|fs| - 1];
    if |fs| == 1 {
      assert init == [];
    } else {
      TileAt(h, init, tokens, model, last.start, if k < |init| then k else 0);
      if k == |init| - 1 {
        assert fs[k + 1] == last;
      }
    }
  }

  function Step(length: nat, attempts: int): (step: nat)
    ensures 0 < step
    ensures attempts > 0 && length < 2 * attempts ==> step == 1
  {
    if attempts > 0 then
      if length / attempts > 1 then length / attempts else 1
    else 1
  }

  /** The step makes as many attempts as allowed, at most one token too short: it is the
      quotient of length and attempts where that exceeds one, and one otherwise. */
  lemma StepIsQuotient(length: nat, attempts: int)
    ensures attempts <= 0 || length < attempts ==> Step(length, attempts) == 1
    ensures attempts > 0 && length >= attempts ==>
      var step := Step(length, attempts); step * attempts <= length < (step + 1) * attempts
  {
    if attempts > 0 {
      Division(length, attempts);
    }
  }

  /** How many lengths a scan tries. */
  function Tries(from: int, step: nat): nat
    requires 0 < step
    decreases if from < 0 then 0 else from
  {
    if from <= 0 then 0 else 1 + Tries(from - step, step)
  }

  lemma {:induction false} TriesWithinIff(from: int, step: nat, n: nat)
    requires 0 < step
    ensures Tries(from, step) <= n <==> from <= n * step
    decreases n
  {
    if from > 0 && n > 0 {
      TriesWithinIff(from - step, step, n - 1);
      assert n * step == (n - 1) * step + step;
    } else if n > 0 {
      Positive(n, step);
    }
  }

  lemma Positive(n: nat, step: nat)
    ensures 0 <= n * step
  {
  }

  /** The cap on the number of attempts is kept exactly when it is not below the length or
      divides it; a scan never makes twice as many. */
  lemma CapHoldsIff(length: nat, attempts: nat)
    requires 0 < attempts
    ensures Tries(length, Step(length, attempts)) <= attempts <==> length <= attempts || length % attempts == 0
    ensures Tries(length, Step(length, attempts)) < 2 * attempts
  {
    var step := Step(length, attempts);
    TriesWithinIff(length, step, attempts);
    TriesWithinIff(length, step, 2 * attempts - 1);
    StepIsQuotient(length, attempts);
    CapArithmetic(length, attempts, step);
  }

  lemma CapArithmetic(length: nat, attempts: nat, step: nat)
    requires 0 < attempts && 0 < step
    requires length < attempts ==> step == 1
    requires length >= attempts ==> step * attempts <= length < (step + 1) * attempts
    ensures length <= attempts * step <==> length <= attempts || length % attempts == 0
    ensures length <= (2 * attempts - 1) * step
  {
    assert (step + 1) * attempts == step * attempts + attempts;
    assert (2 * attempts - 1) * step == attempts * step + (attempts - 1) * step;
    AtLeast(attempts - 1, step);
    AtLeast(attempts, step);
    if length >= attempts {
      Remainder(length, attempts, step);
    }
  }

  lemma AtLeast(a: nat, k: nat)
    requires 0 < k
    ensures a <= a * k
  {
  }

  lemma Remainder(a: nat, b: nat, q: nat)
    requires 0 < b && q * b <= a < (q + 1) * b
    ensures a % b == a - q * b
  {
    Division(a, b);
    var p := a / b;
    if p < q {
      Multiples(p + 1, q, b);
    } else if q < p {
      Multiples(q + 1, p, b);
    }
    assert a == p * b + a % b;
  }

  lemma Multiples(p: nat, q: nat, b: nat)
    requires p <= q
    ensures p * b <= q * b
  {
  }

  /** Three tokens and two attempts: three prefixes are tried. */
  lemma CapIsExceeded()
    ensures Tries(3, Step(3, 2)) == 3
  {
    assert Tries(0, 1) == 0 && Tries(1, 1) == 1 && Tries(2, 1) == 2;
  }

  lemma Division(a: nat, b: nat)
    requires 0 < b
    ensures (a / b) * b <= a < (a / b + 1) * b
  {
    assert a == (a / b) * b + a % b;
  }
}

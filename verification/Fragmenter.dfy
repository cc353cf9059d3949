/** Cutting a prompt into fixed-size windows, and resizing them after a prefill. */
module Fragmenter {
  import opened Fragments

  /** The two content hashes of a token sequence: the digest of its comma-joined text
      and that of its tuple text. */
  datatype Hashing = Hashing(joined: seq<int> -> Hash, tuple: seq<int> -> Hash)

  /** Ideal hashing: neither hash collides, with itself or with the other.  (The two
      texts determine the tokens, and one starts with a parenthesis.) */
  ghost predicate Ideal(h: Hashing) {
    && (forall s, t {:trigger h.joined(s), h.joined(t)} :: h.joined(s) == h.joined(t) ==> s == t)
    && (forall s, t {:trigger h.tuple(s), h.tuple(t)} :: h.tuple(s) == h.tuple(t) ==> s == t)
    && (forall s, t {:trigger h.joined(s), h.tuple(t)} :: h.joined(s) != h.tuple(t))
  }

  /** Integers as numbers: even for the non-negative, odd for the negative. */
  function Zigzag(x: int): nat { if x < 0 then -2 * x - 1 else 2 * x }

  /** Two numbers as one: `a` halvings, then an odd number that holds `b`. */
  function Pair(a: nat, b: nat): (n: nat)
    ensures 0 < n
  {
    if a == 0 then 2 * b + 1 else 2 * Pair(a - 1, b)
  }

  function Code(tokens: seq<int>): nat {
    if tokens == [] then 0 else Pair(Zigzag(tokens[|tokens| - 1]), Code(tokens[..|tokens| - 1]))
  }

  lemma {:induction false} PairIsInjective(a: nat, b: nat, c: nat, d: nat)
    requires Pair(a, b) == Pair(c, d)
    ensures a == c && b == d
  {
    if a > 0 && c > 0 {
      PairIsInjective(a - 1, b, c - 1, d);
    }
  }

  lemma {:induction false} CodeIsInjective(s: seq<int>, t: seq<int>)
    requires Code(s) == Code(t)
    ensures s == t
  {
    if s != [] && t != [] {
      var x, y := s[|s| - 1], t[|t| - 1];
      PairIsInjective(Zigzag(x), Code(s[..|s| - 1]), Zigzag(y), Code(t[..|t| - 1]));
      ZigzagIsInjective(x, y);
      CodeIsInjective(s[..|s| - 1], t[..|t| - 1]);
      SameTokens(s, t);
    }
  }

  lemma ZigzagIsInjective(x: int, y: int)
    ensures Zigzag(x) == Zigzag(y) ==> x == y
  {
  }

  lemma SameTokens(s: seq<int>, t: seq<int>)
    requires s != [] && t != [] && s[..|s| - 1] == t[..|t| - 1] && s[|s| - 1] == t[|t| - 1]
    ensures s == t
  {
    assert s == s[..|s| - 1] + [s[|s| - 1]] && t == t[..|t| - 1] + [t[|t| - 1]];
  }

  /** Ideal hashing exists, so nothing that requires it is empty. */
  lemma IdealHashingExists() returns (h: Hashing)
    ensures Ideal(h)
  {
    h := Hashing((s: seq<int>) => 2 * Code(s), (s: seq<int>) => 2 * Code(s) + 1);
    forall s: seq<int>, t: seq<int> | Code(s) == Code(t) ensures s == t {
      CodeIsInjective(s, t);
    }
  }

  /** `hash` is one of the hashes of `tokens`. */
  predicate HashOf(h: Hashing, hash: Hash, tokens: seq<int>) {
    hash == h.joined(tokens) || hash == h.tuple(tokens)
  }

  const DEFAULT_TENANT := "public"

  function Min(a: int, b: int): int { if a < b then a else b }

  /** The fragment of a window of a prompt, from `start` up to but not including `upTo`. */
  function Window(h: Hashing, tokens: seq<int>, model: string, start: nat, upTo: nat): (f: Fragment)
    requires start < upTo <= |tokens|
    ensures f.start == start && f.end == upTo - 1 && f.model == model
    ensures f.hash == h.tuple(tokens[start..upTo]) && f.payloadRef == Some(f.hash)
    ensures f.size == 64 * (upTo - start) && f.tenant == DEFAULT_TENANT
  {
    var hash := h.tuple(tokens[start..upTo]);
    FragmentRecord(hash, model, start, upTo - 1, DEFAULT_TENANT, Some(hash), (upTo - start) * 64, 3600.0, 0.5, 1)
  }

  /** Where window `i` starts. */
  function Offset(i: nat, size: nat): nat { if i == 0 then 0 else Offset(i - 1, size) + size }

  lemma {:induction false} OffsetIsProduct(i: nat, size: nat)
    ensures Offset(i, size) == i * size
  {
    if i > 0 {
      OffsetIsProduct(i - 1, size);
      assert i * size == (i - 1) * size + size;
    }
  }

  /** `fs` is the first windows of a prompt, as far as token `upTo`: window `i` starts at
      `i * size` and is `size` tokens long unless the prompt ends first. */
  predicate Windows(h: Hashing, fs: seq<Fragment>, tokens: seq<int>, model: string, size: nat, upTo: nat) {
    && upTo <= |tokens|
    && (if fs == [] then upTo == 0
        else
          var last := fs[|fs| - 1];
          && last.start == Offset(|fs| - 1, size) < upTo == Min(last.start + size, |tokens|)
          && last == Window(h, tokens, model, last.start, upTo)
          && Windows(h, fs[..|fs| - 1], tokens, model, size, last.start))
  }

  lemma WindowsSnoc(h: Hashing, fs: seq<Fragment>, tokens: seq<int>, model: string, size: nat, upTo: nat)
    requires 0 < size && Windows(h, fs, tokens, model, size, upTo) && upTo == Offset(|fs|, size) < |tokens|
    ensures var next := Min(upTo + size, |tokens|);
      Windows(h, fs + [Window(h, tokens, model, upTo, next)], tokens, model, size, next)
  {
    var f := Window(h, tokens, model, upTo, Min(upTo + size, |tokens|));
    assert (fs + [f])[..|fs|] == fs;
  }

  /** `fs` cuts the first `upTo` tokens into consecutive pieces, in order, each carrying
      the model and a hash of exactly its own tokens. */
  predicate Tiles(h: Hashing, fs: seq<Fragment>, tokens: seq<int>, model: string, upTo: nat) {
    && upTo <= |tokens|
    && (if fs == [] then upTo == 0
        else
          var last := fs[|fs| - 1];
          && last.end + 1 == upTo && last.model == model
          && HashOf(h, last.hash, tokens[last.start..upTo])
          && Tiles(h, fs[..|fs| - 1], tokens, model, last.start))
  }

  /** Windows tile the prompt. */
  lemma {:induction false} WindowsTile(h: Hashing, fs: seq<Fragment>, tokens: seq<int>, model: string, size: nat, upTo: nat)
    requires Windows(h, fs, tokens, model, size, upTo)
    ensures Tiles(h, fs, tokens, model, upTo)
  {
    if fs != [] {
      WindowsTile(h, fs[..|fs| - 1], tokens, model, size, fs[|fs| - 1].start);
    }
  }

  /** All but the last of the windows end inside the prompt, and the last reaches its end. */
  lemma WindowBounds(n: nat, size: nat, i: nat)
    requires 0 < size && 0 < n && i < (n + size - 1) / size
    ensures i * size == Offset(i, size) < n
    ensures i + 1 < (n + size - 1) / size ==> Offset(i + 1, size) < n
    ensures i + 1 == (n + size - 1) / size ==> n <= Offset(i + 1, size)
  {
    var count := (n + size - 1) / size;
    var q := n + size - 1;
    assert q == size * count + q % size;
    assert (count - 1) * size + size == count * size;
    OffsetIsProduct(i, size);
    OffsetIsProduct(i + 1, size);
    MultiplyUp(i, count - 1, size);
    if i + 1 < count {
      MultiplyUp(i + 1, count - 1, size);
    }
  }

  lemma MultiplyUp(a: nat, b: nat, k: nat)
    requires a <= b
    ensures a * k <= b * k
  {
  }

  /** Cuts a prompt into windows of `size` tokens, the last one possibly shorter. */
  method CreateWindows(h: Hashing, tokens: seq<int>, model: string, size: nat) returns (windows: seq<Fragment>)
    requires 0 < size
    ensures Windows(h, windows, tokens, model, size, |tokens|)
  {
    windows := [];
    if tokens == [] {
      return;
    }
    var count := (|tokens| + size - 1) / size;
    ghost var reached: nat := 0;
    for i := 0 to count
      invariant |windows| == i && Windows(h, windows, tokens, model, size, reached)
      invariant reached == if i == count then |tokens| else Offset(i, size)
    {
      WindowBounds(|tokens|, size, i);
      var f := NextWindow(h, tokens, model, size, i * size, windows);
      windows := windows + [f];
      reached := f.end + 1;
    }
  }

  /** The window that follows `windows`. */
  method NextWindow(h: Hashing, tokens: seq<int>, model: string, size: nat, start: nat, ghost windows: seq<Fragment>)
      returns (f: Fragment)
    requires 0 < size && start == Offset(|windows|, size) < |tokens| && Windows(h, windows, tokens, model, size, start)
    ensures Windows(h, windows + [f], tokens, model, size, f.end + 1)
    ensures f.end + 1 == Min(start + size, |tokens|)
  {
    WindowsSnoc(h, windows, tokens, model, size, start);
    var end := Min(start + size, |tokens|) - 1;
    f := Window(h, tokens, model, start, end + 1);
  }

  /** Every fragment has the size that `share` gives its number of tokens. */
  predicate Shares(fs: seq<Fragment>, share: int -> nat) {
    fs == [] || (fs[|fs| - 1].size == share(Span(fs[|fs| - 1])) && Shares(fs[..|fs| - 1], share))
  }

  function Span(f: Fragment): int { f.end - f.start + 1 }

  lemma SharesSnoc(fs: seq<Fragment>, f: Fragment, share: int -> nat)
    requires Shares(fs, share) && f.size == share(Span(f))
    ensures Shares(fs + [f], share)
  {
    assert (fs + [f])[..|fs|] == fs;
  }

  /** Gives every window its share; only the size changes. */
  method Resize(windows: seq<Fragment>, share: int -> nat) returns (fragments: seq<Fragment>)
    ensures Resized(windows, fragments) && Shares(fragments, share)
  {
    fragments := [];
    for i := 0 to |windows|
      invariant |fragments| == i && Resized(windows[..i], fragments) && Shares(fragments, share)
    {
      var f: Fragment := windows[i].(size := share(Span(windows[i])));
      SharesSnoc(fragments, f, share);
      ResizedSnoc(windows[..i], fragments, windows[i], share(Span(windows[i])));
      assert windows[..i] + [windows[i]] == windows[..i + 1];
      fragments := fragments + [f];
    }
    assert windows[..|windows|] == windows;
  }

  /** The share of a number of tokens in the prefilled tensors, in bytes, at least one. */
  function ShareOf(kvSize: real, n: nat): int -> nat
    requires 0 < n
  {
    (tokens: int) => AtLeastOne(Portion(tokens, Rate(kvSize, n)).Floor)
  }

  /** Bytes per token of tensors of `kvSize` mebibytes. */
  function Rate(kvSize: real, n: nat): real
    requires 0 < n
  {
    kvSize * 1024.0 * 1024.0 / (n as real)
  }

  function Portion(tokens: int, rate: real): real { (tokens as real) * rate }

  lemma PortionsAdd(a: int, b: int, rate: real)
    ensures Portion(a + b, rate) == Portion(a, rate) + Portion(b, rate)
  {
  }

  lemma WholePortion(kvSize: real, n: nat)
    requires 0 < n
    ensures Portion(n, Rate(kvSize, n)) == kvSize * 1048576.0
  {
  }

  /** A share is the tokens' portion of the tensors, to within a byte, and at least one. */
  lemma ShareIsProportional(kvSize: real, n: nat, tokens: int)
    requires 0 < n && 0.0 <= Portion(tokens, Rate(kvSize, n))
    ensures var share, exact := ShareOf(kvSize, n)(tokens), Portion(tokens, Rate(kvSize, n));
      1 <= share && exact - 1.0 < share as real <= exact + 1.0 && (1.0 <= exact ==> share as real <= exact)
  {
  }

  function SizeOf(fs: seq<Fragment>): int {
    if fs == [] then 0 else SizeOf(fs[..|fs| - 1]) + fs[|fs| - 1].size
  }

  lemma PortionIsPositive(tokens: nat, rate: real)
    requires 0.0 <= rate
    ensures 0.0 <= Portion(tokens, rate)
  {
  }

  /** The fragments of a prefill share out the tensors, to within a byte each. */
  lemma {:induction false} SharesAddUp(h: Hashing, fs: seq<Fragment>, tokens: seq<int>, model: string, upTo: nat, kvSize: real, n: nat)
    requires 0 < n && 0.0 <= Rate(kvSize, n) && Tiles(h, fs, tokens, model, upTo) && Shares(fs, ShareOf(kvSize, n))
    ensures Portion(upTo, Rate(kvSize, n)) - (|fs| as real) <= SizeOf(fs) as real <= Portion(upTo, Rate(kvSize, n)) + (|fs| as real)
  {
    if fs != [] {
      var last := fs[|fs| - 1];
      SharesAddUp(h, fs[..|fs| - 1], tokens, model, last.start, kvSize, n);
      PortionIsPositive(Span(last), Rate(kvSize, n));
      ShareIsProportional(kvSize, n, Span(last));
      PortionsAdd(last.start, Span(last), Rate(kvSize, n));
    }
  }

  /** A prefill's fragments: the windows of the prompt with their share of the size of
      the key-value tensors. */
  method KvFragments(h: Hashing, tokens: seq<int>, model: string, size: nat, kvSize: real)
      returns (fragments: seq<Fragment>, ghost windows: seq<Fragment>)
    requires 0 < size
    ensures Windows(h, windows, tokens, model, size, |tokens|) && Resized(windows, fragments)
    ensures Tiles(h, fragments, tokens, model, |tokens|)
    ensures fragments == [] <==> tokens == []
    ensures tokens != [] ==> Shares(fragments, ShareOf(kvSize, |tokens|))
    // Together they are as large as the tensors, to within a byte each.
    ensures tokens != [] && 0.0 <= kvSize ==>
      var bytes, slack := kvSize * 1048576.0, |fragments| as real; bytes - slack <= SizeOf(fragments) as real <= bytes + slack
  {
    if tokens == [] {
      return [], [];
    }
    var cut := CreateWindows(h, tokens, model, size);
    fragments := Resize(cut, ShareOf(kvSize, |tokens|));
    windows := cut;
    WindowsTile(h, windows, tokens, model, size, |tokens|);
    ResizedTiles(h, windows, fragments, tokens, model, |tokens|);
    if 0.0 <= kvSize {
      RateIsPositive(kvSize, |tokens|);
      SharesAddUp(h, fragments, tokens, model, |tokens|, kvSize, |tokens|);
      WholePortion(kvSize, |tokens|);
    }
  }

  lemma RateIsPositive(kvSize: real, n: nat)
    requires 0 < n && 0.0 <= kvSize
    ensures 0.0 <= Rate(kvSize, n)
  {
  }

  function AtLeastOne(n: int): nat { if n < 1 then 1 else n }

  /** The same fragments up to their sizes. */
  predicate Resized(a: seq<Fragment>, b: seq<Fragment>) {
    |a| == |b| && forall i :: 0 <= i < |a| ==> b[i] == a[i].(size := b[i].size)
  }

  lemma ResizedSnoc(a: seq<Fragment>, b: seq<Fragment>, f: Fragment, size: nat)
    requires Resized(a, b)
    ensures Resized(a + [f], b + [f.(size := size)])
  {
  }

  lemma {:induction false} ResizedTiles(h: Hashing, a: seq<Fragment>, b: seq<Fragment>, tokens: seq<int>, model: string, upTo: nat)
    requires Resized(a, b) && Tiles(h, a, tokens, model, upTo)
    ensures Tiles(h, b, tokens, model, upTo)
  {
    if a != [] {
      ResizedTiles(h, a[..|a| - 1], b[..|b| - 1], tokens, model, a[|a| - 1].start);
    }
  }
}

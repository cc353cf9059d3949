/** The pure side of a node's residency: what a fragment table holds, what it
    weighs, which content blobs it references, and which residents an eviction
    takes.  A table is an insertion-ordered dictionary whose keys are a function of
    its values, so it is modelled by the sequence of its values with distinct keys. */
module Residents {
  import opened Fragments

  /** The storage key: one copy of a content hash per tenant. */
  datatype Key = Key(tenant: string, hash: Hash)

  function KeyOf(f: Fragment): Key { Key(f.tenant, f.hash) }

  function RefOf(f: Fragment): set<Hash> { if f.payloadRef.Some? then {f.payloadRef.value} else {} }

  function Keys(fs: seq<Fragment>): set<Key> {
    if fs == [] then {} else Keys(fs[..|fs| - 1]) + {KeyOf(fs[|fs| - 1])}
  }

  /** The content blobs that some fragment of `fs` references. */
  function Refs(fs: seq<Fragment>): set<Hash> {
    if fs == [] then {} else Refs(fs[..|fs| - 1]) + RefOf(fs[|fs| - 1])
  }

  /** No two fragments of `fs` share a key. */
  predicate DistinctKeys(fs: seq<Fragment>) {
    fs == [] || (DistinctKeys(fs[..|fs| - 1]) && KeyOf(fs[|fs| - 1]) !in Keys(fs[..|fs| - 1]))
  }

  /** Bytes held by `fs`. */
  function Total(fs: seq<Fragment>): (n: nat) {
    if fs == [] then 0 else Total(fs[..|fs| - 1]) + fs[|fs| - 1].size
  }

  /** How many fragments of `fs` reference the blob `ref`. */
  function Referrers(fs: seq<Fragment>, ref: Hash): (n: nat) {
    if fs == [] then 0
    else Referrers(fs[..|fs| - 1], ref) + if fs[|fs| - 1].payloadRef == Some(ref) then 1 else 0
  }

  /** `fs` without the fragments whose key is in `gone`, in the same order. */
  function Minus(fs: seq<Fragment>, gone: set<Key>): (rest: seq<Fragment>) {
    if fs == [] then []
    else if KeyOf(fs[|fs| - 1]) in gone then Minus(fs[..|fs| - 1], gone)
    else Minus(fs[..|fs| - 1], gone) + [fs[|fs| - 1]]
  }

  lemma Split(fs: seq<Fragment>)
    requires fs != []
    ensures fs == fs[..|fs| - 1] + [fs[|fs| - 1]]
  {
  }

  /** What one more fragment adds to the keys. */
  lemma SnocKeys(fs: seq<Fragment>, f: Fragment)
    ensures Keys(fs + [f]) == Keys(fs) + {KeyOf(f)}
    ensures DistinctKeys(fs + [f]) <==> DistinctKeys(fs) && KeyOf(f) !in Keys(fs)
  {
    assert (fs + [f])[..|fs|] == fs;
  }

  /** What one more fragment adds. */
  lemma Snoc(fs: seq<Fragment>, f: Fragment)
    ensures Keys(fs + [f]) == Keys(fs) + {KeyOf(f)}
    ensures DistinctKeys(fs + [f]) <==> DistinctKeys(fs) && KeyOf(f) !in Keys(fs)
    ensures Refs(fs + [f]) == Refs(fs) + RefOf(f)
    ensures Total(fs + [f]) == Total(fs) + f.size
  {
    SnocKeys(fs, f);
    assert (fs + [f])[..|fs|] == fs;
  }

  lemma SnocReferrers(fs: seq<Fragment>, f: Fragment, ref: Hash)
    ensures Referrers(fs + [f], ref) == Referrers(fs, ref) + if f.payloadRef == Some(ref) then 1 else 0
  {
    assert (fs + [f])[..|fs|] == fs;
  }

  lemma SnocMinus(fs: seq<Fragment>, f: Fragment, gone: set<Key>)
    ensures Minus(fs + [f], gone) == if KeyOf(f) in gone then Minus(fs, gone) else Minus(fs, gone) + [f]
  {
    assert (fs + [f])[..|fs|] == fs;
  }

  lemma {:induction false} KeyIn(fs: seq<Fragment>, f: Fragment)
    requires f in fs
    ensures KeyOf(f) in Keys(fs) && RefOf(f) <= Refs(fs)
  {
    Split(fs);
    if f in fs[..|fs| - 1] {
      KeyIn(fs[..|fs| - 1], f);
    }
  }

  lemma {:induction false} KeyFrom(fs: seq<Fragment>, k: Key) returns (f: Fragment)
    requires k in Keys(fs)
    ensures f in fs && KeyOf(f) == k
  {
    if k == KeyOf(fs[|fs| - 1]) {
      f := fs[|fs| - 1];
    } else {
      f := KeyFrom(fs[..|fs| - 1], k);
    }
  }

  lemma {:induction false} RefFrom(fs: seq<Fragment>, ref: Hash) returns (f: Fragment)
    requires ref in Refs(fs)
    ensures f in fs && f.payloadRef == Some(ref)
  {
    if ref in RefOf(fs[|fs| - 1]) {
      f := fs[|fs| - 1];
    } else {
      f := RefFrom(fs[..|fs| - 1], ref);
    }
  }

  lemma {:induction false} MinusMembers(fs: seq<Fragment>, gone: set<Key>)
    ensures forall f :: f in Minus(fs, gone) <==> f in fs && KeyOf(f) !in gone
  {
    if fs != [] {
      MinusMembers(fs[..|fs| - 1], gone);
      Split(fs);
    }
  }

  lemma {:induction false} MinusKeySet(fs: seq<Fragment>, gone: set<Key>)
    ensures Keys(Minus(fs, gone)) == Keys(fs) - gone
  {
    if fs != [] {
      MinusKeySet(fs[..|fs| - 1], gone);
      SnocKeys(Minus(fs[..|fs| - 1], gone), fs[|fs| - 1]);
    }
  }

  lemma {:induction false} MinusLess(fs: seq<Fragment>, gone: set<Key>)
    ensures Refs(Minus(fs, gone)) <= Refs(fs)
    ensures Total(Minus(fs, gone)) <= Total(fs)
  {
    if fs != [] {
      MinusLess(fs[..|fs| - 1], gone);
      Snoc(Minus(fs[..|fs| - 1], gone), fs[|fs| - 1]);
    }
  }

  lemma {:induction false} MinusDistinct(fs: seq<Fragment>, gone: set<Key>)
    requires DistinctKeys(fs)
    ensures DistinctKeys(Minus(fs, gone))
  {
    if fs != [] {
      MinusDistinct(fs[..|fs| - 1], gone);
      MinusKeySet(fs[..|fs| - 1], gone);
      SnocKeys(Minus(fs[..|fs| - 1], gone), fs[|fs| - 1]);
    }
  }

  /** Without the residents that left: no keys of theirs, no new blobs, no more bytes. */
  lemma MinusKeys(fs: seq<Fragment>, gone: set<Key>)
    ensures Keys(Minus(fs, gone)) == Keys(fs) - gone
    ensures Refs(Minus(fs, gone)) <= Refs(fs)
    ensures Total(Minus(fs, gone)) <= Total(fs)
    ensures DistinctKeys(fs) ==> DistinctKeys(Minus(fs, gone))
  {
    MinusKeySet(fs, gone);
    MinusLess(fs, gone);
    if DistinctKeys(fs) {
      MinusDistinct(fs, gone);
    }
  }

  lemma {:induction false} DistinctPrefix(fs: seq<Fragment>, n: nat)
    requires DistinctKeys(fs) && n <= |fs|
    ensures DistinctKeys(fs[..n])
  {
    if n == |fs| {
      assert fs[..n] == fs;
    } else {
      DistinctPrefix(fs[..|fs| - 1], n);
      assert fs[..|fs| - 1][..n] == fs[..n];
    }
  }

  /** A key at one position is not a key before it. */
  lemma DistinctAt(fs: seq<Fragment>, i: nat)
    requires DistinctKeys(fs) && i < |fs|
    ensures KeyOf(fs[i]) !in Keys(fs[..i])
  {
    DistinctPrefix(fs, i + 1);
    assert fs[..i + 1][..i] == fs[..i];
  }

  lemma {:induction false} Append(a: seq<Fragment>, b: seq<Fragment>)
    ensures Keys(a + b) == Keys(a) + Keys(b)
    ensures Total(a + b) == Total(a) + Total(b)
    ensures DistinctKeys(a) && DistinctKeys(b) && Keys(a) !! Keys(b) ==> DistinctKeys(a + b)
  {
    if b == [] {
      assert a + b == a;
    } else {
      var init, last := b[..|b| - 1], b[|b| - 1];
      Append(a, init);
      Snoc(a + init, last);
      assert a + b == a + init + [last];
    }
  }

  lemma {:induction false} SameKeySameFragment(fs: seq<Fragment>, a: Fragment, b: Fragment)
    requires DistinctKeys(fs) && a in fs && b in fs && KeyOf(a) == KeyOf(b)
    ensures a == b
  {
    var init, last := fs[..|fs| - 1], fs[|fs| - 1];
    Split(fs);
    if a in init {
      KeyIn(init, a);
    }
    if b in init {
      KeyIn(init, b);
    }
    if a in init && b in init {
      SameKeySameFragment(init, a, b);
    }
  }

  /** Removing in two rounds is removing once. */
  lemma {:induction false} MinusTwice(fs: seq<Fragment>, a: set<Key>, b: set<Key>)
    ensures Minus(Minus(fs, a), b) == Minus(fs, a + b)
  {
    if fs != [] {
      var init, last := fs[..|fs| - 1], fs[|fs| - 1];
      MinusTwice(init, a, b);
      if KeyOf(last) !in a {
        SnocMinus(Minus(init, a), last, b);
      }
    }
  }

  lemma {:induction false} MinusNone(fs: seq<Fragment>, gone: set<Key>)
    requires Keys(fs) !! gone
    ensures Minus(fs, gone) == fs
  {
    if fs != [] {
      MinusNone(fs[..|fs| - 1], gone);
      Split(fs);
    }
  }

  lemma {:induction false} MinusAll(fs: seq<Fragment>, gone: set<Key>)
    requires Keys(fs) <= gone
    ensures Minus(fs, gone) == []
  {
    if fs != [] {
      MinusAll(fs[..|fs| - 1], gone);
    }
  }

  lemma {:induction false} ReferrersRefs(fs: seq<Fragment>, ref: Hash)
    ensures 0 < Referrers(fs, ref) <==> ref in Refs(fs)
  {
    if fs != [] {
      ReferrersRefs(fs[..|fs| - 1], ref);
    }
  }

  /** Removing one resident gives back exactly its bytes and its reference. */
  lemma {:induction false} MinusOne(fs: seq<Fragment>, f: Fragment, ref: Hash)
    requires DistinctKeys(fs) && f in fs
    ensures Total(Minus(fs, {KeyOf(f)})) == Total(fs) - f.size
    ensures Referrers(Minus(fs, {KeyOf(f)}), ref) == Referrers(fs, ref) - if f.payloadRef == Some(ref) then 1 else 0
  {
    var init, last := fs[..|fs| - 1], fs[|fs| - 1];
    var gone := {KeyOf(f)};
    Split(fs);
    if KeyOf(last) == KeyOf(f) {
      SameKeySameFragment(fs, f, last);
      MinusNone(init, gone);
      assert Minus(fs, gone) == init;
    } else {
      MinusOne(init, f, ref);
      Snoc(Minus(init, gone), last);
      SnocReferrers(Minus(init, gone), last, ref);
    }
  }

  // --- Expiry -----------------------------------------------------------------

  /** A resident is expired when its age exceeds its time to live.  A resident
      without an insertion time counts as inserted now. */
  predicate Expired(f: Fragment, insertionTimes: map<Key, real>, now: real) {
    now - (if KeyOf(f) in insertionTimes then insertionTimes[KeyOf(f)] else now) > f.ttl
  }

  /** A resident expires once its age exceeds its time to live, and not before. */
  lemma ExpiresAfterTtl(f: Fragment, insertionTimes: map<Key, real>, now: real)
    ensures KeyOf(f) in insertionTimes ==> (Expired(f, insertionTimes, now) <==> insertionTimes[KeyOf(f)] + f.ttl < now)
    ensures KeyOf(f) !in insertionTimes ==> !Expired(f, insertionTimes, now)
  {
  }

  function ExpiredOf(fs: seq<Fragment>, insertionTimes: map<Key, real>, now: real): (r: seq<Fragment>) {
    if fs == [] then []
    else if Expired(fs[|fs| - 1], insertionTimes, now) then ExpiredOf(fs[..|fs| - 1], insertionTimes, now) + [fs[|fs| - 1]]
    else ExpiredOf(fs[..|fs| - 1], insertionTimes, now)
  }

  lemma {:induction false} ExpiredMembers(fs: seq<Fragment>, insertionTimes: map<Key, real>, now: real)
    ensures forall f :: f in ExpiredOf(fs, insertionTimes, now) <==> f in fs && Expired(f, insertionTimes, now)
  {
    if fs != [] {
      ExpiredMembers(fs[..|fs| - 1], insertionTimes, now);
      Split(fs);
    }
  }

  lemma {:induction false} ExpiredKeys(fs: seq<Fragment>, insertionTimes: map<Key, real>, now: real)
    ensures Keys(ExpiredOf(fs, insertionTimes, now)) <= Keys(fs)
    ensures Total(ExpiredOf(fs, insertionTimes, now)) <= Total(fs)
    ensures DistinctKeys(fs) ==> DistinctKeys(ExpiredOf(fs, insertionTimes, now))
  {
    if fs != [] {
      var init, last := fs[..|fs| - 1], fs[|fs| - 1];
      ExpiredKeys(init, insertionTimes, now);
      if Expired(last, insertionTimes, now) {
        Snoc(ExpiredOf(init, insertionTimes, now), last);
      }
    }
  }

  // --- The order of eviction ----------------------------------------------------

  /** A policy turns candidates, access times and the time of day into the candidates
      in eviction order: it only orders them. */
  ghost predicate Orders(policy: (seq<Fragment>, map<Key, real>, real) -> seq<Fragment>) {
    forall fs, access, now {:trigger policy(fs, access, now)} :: DistinctKeys(fs) ==>
      && DistinctKeys(policy(fs, access, now))
      && (forall f :: f in policy(fs, access, now) <==> f in fs)
  }

  /** An eviction policy; the default one is a witness. */
  type Policy = policy: (seq<Fragment>, map<Key, real>, real) -> seq<Fragment> | Orders(policy)
    witness (WeightedLruOrders(); WeightedLru)

  /** Everything resident in the order it would be evicted: the expired first, in
      table order, then the rest as the policy orders them. */
  function Plan(policy: Policy, fs: seq<Fragment>, insertionTimes: map<Key, real>,
      accessTimes: map<Key, real>, now: real): (plan: seq<Fragment>)
  {
    var expired := ExpiredOf(fs, insertionTimes, now);
    expired + policy(Minus(fs, Keys(expired)), accessTimes - Keys(expired), now)
  }

  lemma OrderedAreLive(policy: Policy, fs: seq<Fragment>, insertionTimes: map<Key, real>,
      accessTimes: map<Key, real>, now: real, expired: seq<Fragment>, g: Fragment)
    requires DistinctKeys(fs) && expired == ExpiredOf(fs, insertionTimes, now)
    requires g in policy(Minus(fs, Keys(expired)), accessTimes - Keys(expired), now)
    ensures !Expired(g, insertionTimes, now)
  {
    MinusKeys(fs, Keys(expired));
    MinusMembers(fs, Keys(expired));
    ExpiredMembers(fs, insertionTimes, now);
    if g in expired {
      KeyIn(expired, g);
    }
  }

  lemma ExpiredAt(fs: seq<Fragment>, insertionTimes: map<Key, real>, now: real, i: nat)
    requires i < |ExpiredOf(fs, insertionTimes, now)|
    ensures Expired(ExpiredOf(fs, insertionTimes, now)[i], insertionTimes, now)
  {
    ExpiredMembers(fs, insertionTimes, now);
  }

  /** In a plan the expired come before the rest. */
  lemma PlanTakesExpiredFirst(policy: Policy, fs: seq<Fragment>, insertionTimes: map<Key, real>,
      accessTimes: map<Key, real>, now: real, i: nat, j: nat)
    requires DistinctKeys(fs) && i < j < |Plan(policy, fs, insertionTimes, accessTimes, now)|
    ensures var plan := Plan(policy, fs, insertionTimes, accessTimes, now);
      Expired(plan[j], insertionTimes, now) ==> Expired(plan[i], insertionTimes, now)
  {
    var expired := ExpiredOf(fs, insertionTimes, now);
    var order := policy(Minus(fs, Keys(expired)), accessTimes - Keys(expired), now);
    if i < |expired| {
      ExpiredAt(fs, insertionTimes, now, i);
    } else {
      OrderedAreLive(policy, fs, insertionTimes, accessTimes, now, expired, order[j - |expired|]);
    }
  }

  /** A plan lists every resident exactly once. */
  lemma PlanIsPermutation(policy: Policy, fs: seq<Fragment>, insertionTimes: map<Key, real>,
      accessTimes: map<Key, real>, now: real)
    requires DistinctKeys(fs)
    ensures var plan := Plan(policy, fs, insertionTimes, accessTimes, now);
      DistinctKeys(plan) && forall f :: f in plan <==> f in fs
  {
    var expired := ExpiredOf(fs, insertionTimes, now);
    var rest := Minus(fs, Keys(expired));
    ExpiredMembers(fs, insertionTimes, now);
    ExpiredKeys(fs, insertionTimes, now);
    MinusMembers(fs, Keys(expired));
    MinusKeys(fs, Keys(expired));
    var ordered := policy(rest, accessTimes - Keys(expired), now);
    forall f | f in fs && f !in expired ensures f in rest {
      if KeyOf(f) in Keys(expired) {
        var e := KeyFrom(expired, KeyOf(f));
        SameKeySameFragment(fs, e, f);
      }
    }
    SameKeys(ordered, rest);
    Append(expired, ordered);
  }

  /** Sequences with the same members have the same keys. */
  lemma SameKeys(a: seq<Fragment>, b: seq<Fragment>)
    requires forall f :: f in a ==> f in b
    ensures Keys(a) <= Keys(b)
  {
    forall k | k in Keys(a) ensures k in Keys(b) {
      var f := KeyFrom(a, k);
      KeyIn(b, f);
    }
  }

  /** Bytes held by the first `n` fragments of `plan`. */
  function Weight(plan: seq<Fragment>, n: nat): nat
    requires n <= |plan|
  {
    if n == 0 then 0 else Weight(plan, n - 1) + plan[n - 1].size
  }

  lemma {:induction false} WeightIsTotal(plan: seq<Fragment>, n: nat)
    requires n <= |plan|
    ensures Weight(plan, n) == Total(plan[..n])
  {
    if n != 0 {
      WeightIsTotal(plan, n - 1);
      assert plan[..n][..n - 1] == plan[..n - 1];
    }
  }

  /** How many leading fragments of `plan` have to go to free `target` bytes, the
      first `i` being gone already. */
  function CutFrom(plan: seq<Fragment>, target: int, i: nat): (n: nat)
    requires i <= |plan|
    ensures i <= n <= |plan|
    decreases |plan| - i
  {
    if i == |plan| || target <= Weight(plan, i) then i else CutFrom(plan, target, i + 1)
  }

  function Cut(plan: seq<Fragment>, target: int): (n: nat)
    ensures n <= |plan|
  {
    CutFrom(plan, target, 0)
  }

  /** `n` is the least number of leading fragments that weighs `target` bytes, or all
      of them when even that is too little. */
  predicate Shortest(plan: seq<Fragment>, target: int, n: nat) {
    && n <= |plan|
    && (forall m: nat :: m < n ==> Weight(plan, m) < target)
    && (n < |plan| ==> target <= Weight(plan, n))
  }

  lemma {:induction false} CutFromIsShortest(plan: seq<Fragment>, target: int, i: nat)
    requires i <= |plan|
    requires forall m: nat :: m < i ==> Weight(plan, m) < target
    ensures Shortest(plan, target, CutFrom(plan, target, i))
    decreases |plan| - i
  {
    if i < |plan| && Weight(plan, i) < target {
      CutFromIsShortest(plan, target, i + 1);
    }
  }

  /** `Cut` is the one and only shortest prefix. */
  lemma CutIsShortest(plan: seq<Fragment>, target: int, n: nat)
    ensures Shortest(plan, target, n) <==> n == Cut(plan, target)
  {
    CutFromIsShortest(plan, target, 0);
    var cut := Cut(plan, target);
    if n < cut {
      assert Weight(plan, n) < target;
    } else if cut < n <= |plan| {
      assert target <= Weight(plan, cut);
    }
  }

  lemma {:induction false} WeightAppend(a: seq<Fragment>, b: seq<Fragment>, k: nat)
    requires k <= |a| + |b|
    ensures Weight(a + b, k) == if k <= |a| then Weight(a, k) else Weight(a, |a|) + Weight(b, k - |a|)
  {
    if k != 0 {
      WeightAppend(a, b, k - 1);
    }
  }

  lemma {:induction false} WeightGrows(a: seq<Fragment>, k: nat, n: nat)
    requires k <= n <= |a|
    ensures Weight(a, k) <= Weight(a, n)
  {
    if k < n {
      WeightGrows(a, k, n - 1);
    }
  }

  /** Stopping at the first moment the target is met stops at the cut. */
  lemma CutAt(plan: seq<Fragment>, target: int, i: nat)
    requires i <= |plan|
    requires i == |plan| || target <= Weight(plan, i)
    requires i == 0 || Weight(plan, i - 1) < target
    ensures Cut(plan, target) == i
  {
    forall m: nat | m < i ensures Weight(plan, m) < target {
      WeightGrows(plan, m, i - 1);
    }
    CutIsShortest(plan, target, i);
  }

  /** When the first stage frees enough, the second takes nothing. */
  lemma CutWithin(a: seq<Fragment>, b: seq<Fragment>, target: int)
    requires target <= Weight(a, |a|)
    ensures Cut(a + b, target) == Cut(a, target) && target <= Weight(a, Cut(a, target))
  {
    var n := Cut(a, target);
    CutIsShortest(a, target, n);
    forall k: nat | k <= |a| ensures Weight(a + b, k) == Weight(a, k) {
      WeightAppend(a, b, k);
    }
    CutIsShortest(a + b, target, n);
  }

  /** When the first stage falls short it takes everything, and the second cuts for
      the bytes still wanted. */
  lemma CutBeyond(a: seq<Fragment>, b: seq<Fragment>, target: int)
    requires Weight(a, |a|) < target
    ensures Cut(a, target) == |a| && Cut(a + b, target) == |a| + Cut(b, target - Weight(a, |a|))
  {
    var m := Cut(b, target - Weight(a, |a|));
    forall k: nat | k < |a| ensures Weight(a, k) < target {
      WeightGrows(a, k, |a|);
    }
    CutIsShortest(a, target, |a|);
    CutIsShortest(b, target - Weight(a, |a|), m);
    ShortestBeyond(a, b, target, m);
    CutIsShortest(a + b, target, |a| + m);
  }

  lemma ShortestBeyond(a: seq<Fragment>, b: seq<Fragment>, target: int, m: nat)
    requires Shortest(a, target, |a|) && Weight(a, |a|) < target && Shortest(b, target - Weight(a, |a|), m)
    ensures Shortest(a + b, target, |a| + m)
  {
    forall k: nat | k < |a| + m ensures Weight(a + b, k) < target {
      WeightAppend(a, b, k);
      if |a| < k {
        assert Weight(b, k - |a|) < target - Weight(a, |a|);
      }
    }
    WeightAppend(a, b, |a| + m);
  }

  /** The residents an eviction of `target` bytes takes. */
  function Victims(policy: Policy, fs: seq<Fragment>, insertionTimes: map<Key, real>,
      accessTimes: map<Key, real>, now: real, target: int): (victims: seq<Fragment>)
  {
    var plan := Plan(policy, fs, insertionTimes, accessTimes, now);
    plan[..Cut(plan, target)]
  }

  /** Evicting either frees the target or empties the table. */
  lemma EvictionSuffices(policy: Policy, fs: seq<Fragment>, insertionTimes: map<Key, real>,
      accessTimes: map<Key, real>, now: real, target: int)
    requires DistinctKeys(fs)
    ensures var victims := Victims(policy, fs, insertionTimes, accessTimes, now, target);
      || target <= Total(victims)
      || Minus(fs, Keys(victims)) == []
  {
    var plan := Plan(policy, fs, insertionTimes, accessTimes, now);
    var victims := Victims(policy, fs, insertionTimes, accessTimes, now, target);
    PlanIsPermutation(policy, fs, insertionTimes, accessTimes, now);
    CutIsShortest(plan, target, Cut(plan, target));
    WeightIsTotal(plan, Cut(plan, target));
    if Total(victims) < target {
      assert victims == plan;
      SameKeys(fs, victims);
      MinusAll(fs, Keys(victims));
    }
  }

  // --- The default policy -------------------------------------------------------

  const REUSE_EPSILON: real := 0.01

  /** When `f` was last used, and now if that is not known. */
  function LastUse(f: Fragment, access: map<Key, real>, now: real): real {
    if KeyOf(f) in access then access[KeyOf(f)] else now
  }

  /** Weighted recency. */
  function Score(f: Fragment, access: map<Key, real>, now: real): real {
    LastUse(f, access, now) / (f.reuse + REUSE_EPSILON)
  }

  lemma Quotient(x: real, y: real)
    requires 0.0 < y
    ensures (x / y) * y == x
  {
  }

  lemma ProductGrows(a: real, b: real, k: real)
    requires a <= b && 0.0 < k
    ensures a * k <= b * k
  {
  }

  lemma ProductGrowsToo(a: real, k: real, l: real)
    requires 0.0 < a && k < l
    ensures a * k < a * l
  {
  }

  lemma PositiveQuotient(x: real, y: real)
    requires 0.0 < x && 0.0 < y
    ensures 0.0 < x / y
  {
    Quotient(x, y);
    if x / y <= 0.0 {
      ProductGrows(x / y, 0.0, y);
    }
  }

  /** Scores in order: with equal divisors the numerators are in order, and with equal
      positive numerators the divisors are in the opposite order. */
  lemma QuotientOrder(x: real, y: real, k: real, l: real)
    requires 0.0 < k && 0.0 < l && x / k <= y / l
    ensures k == l ==> x <= y
    ensures x == y && 0.0 < x ==> l <= k
  {
    Quotient(x, k);
    Quotient(y, l);
    if k == l {
      ProductGrows(x / k, y / l, k);
    }
    if x == y && 0.0 < x && k < l {
      PositiveQuotient(x, k);
      ProductGrowsToo(x / k, k, l);
      ProductGrows(x / k, y / l, l);
      assert false;
    }
  }

  /** Of two candidates, the one that goes first was used no later if their reuse is equal,
      and is reused no less if they were last used at the same positive time. */
  lemma WeightedLruPrefers(fs: seq<Fragment>, access: map<Key, real>, now: real, i: nat, j: nat)
    requires i < j < |WeightedLru(fs, access, now)|
    ensures var f, g := WeightedLru(fs, access, now)[i], WeightedLru(fs, access, now)[j];
      && (f.reuse == g.reuse ==> LastUse(f, access, now) <= LastUse(g, access, now))
      && (LastUse(f, access, now) == LastUse(g, access, now) > 0.0 ==> f.reuse >= g.reuse)
  {
    var f, g := WeightedLru(fs, access, now)[i], WeightedLru(fs, access, now)[j];
    WeightedLruAscends(fs, access, now);
    ScoreOrder(f, g, access, now);
  }

  lemma ScoreOrder(f: Fragment, g: Fragment, access: map<Key, real>, now: real)
    requires Score(f, access, now) <= Score(g, access, now)
    ensures f.reuse == g.reuse ==> LastUse(f, access, now) <= LastUse(g, access, now)
    ensures LastUse(f, access, now) == LastUse(g, access, now) > 0.0 ==> f.reuse >= g.reuse
  {
    QuotientOrder(LastUse(f, access, now), LastUse(g, access, now), f.reuse + REUSE_EPSILON, g.reuse + REUSE_EPSILON);
  }

  /** `f` placed behind every fragment of `fs` that scores no more. */
  function Place(f: Fragment, fs: seq<Fragment>, access: map<Key, real>, now: real): (r: seq<Fragment>)
    ensures multiset(r) == multiset(fs) + multiset{f}
  {
    if fs == [] || Score(fs[|fs| - 1], access, now) <= Score(f, access, now) then fs + [f]
    else
      assert fs == fs[..|fs| - 1] + [fs[|fs| - 1]];
      Place(f, fs[..|fs| - 1], access, now) + [fs[|fs| - 1]]
  }

  /** The stable sort of the candidates by score. */
  function WeightedLru(fs: seq<Fragment>, access: map<Key, real>, now: real): (r: seq<Fragment>)
    ensures multiset(r) == multiset(fs)
  {
    if fs == [] then []
    else
      assert fs == fs[..|fs| - 1] + [fs[|fs| - 1]];
      Place(fs[|fs| - 1], WeightedLru(fs[..|fs| - 1], access, now), access, now)
  }

  predicate Ascending(fs: seq<Fragment>, access: map<Key, real>, now: real) {
    forall i, j :: 0 <= i < j < |fs| ==> Score(fs[i], access, now) <= Score(fs[j], access, now)
  }

  lemma PlaceMembers(f: Fragment, fs: seq<Fragment>, access: map<Key, real>, now: real)
    ensures forall g :: g in Place(f, fs, access, now) ==> g == f || g in fs
  {
    forall g | g in Place(f, fs, access, now) ensures g == f || g in fs {
      assert g in multiset(Place(f, fs, access, now));
    }
  }

  lemma AppendAscends(fs: seq<Fragment>, last: Fragment, access: map<Key, real>, now: real)
    requires Ascending(fs, access, now)
    requires forall g :: g in fs ==> Score(g, access, now) <= Score(last, access, now)
    ensures Ascending(fs + [last], access, now)
  {
  }

  lemma {:induction false} PlaceAscends(f: Fragment, fs: seq<Fragment>, access: map<Key, real>, now: real)
    requires Ascending(fs, access, now)
    ensures Ascending(Place(f, fs, access, now), access, now)
  {
    if fs == [] || Score(fs[|fs| - 1], access, now) <= Score(f, access, now) {
      AppendAscends(fs, f, access, now);
    } else {
      PlaceAscends(f, fs[..|fs| - 1], access, now);
      PlaceMembers(f, fs[..|fs| - 1], access, now);
      AppendAscends(Place(f, fs[..|fs| - 1], access, now), fs[|fs| - 1], access, now);
    }
  }

  lemma {:induction false} WeightedLruAscends(fs: seq<Fragment>, access: map<Key, real>, now: real)
    ensures Ascending(WeightedLru(fs, access, now), access, now)
  {
    if fs != [] {
      WeightedLruAscends(fs[..|fs| - 1], access, now);
      PlaceAscends(fs[|fs| - 1], WeightedLru(fs[..|fs| - 1], access, now), access, now);
    }
  }

  function IfOfScore(f: Fragment, access: map<Key, real>, now: real, score: real): seq<Fragment> {
    if Score(f, access, now) == score then [f] else []
  }

  /** The candidates of one score, as they come. */
  function OfScore(fs: seq<Fragment>, access: map<Key, real>, now: real, score: real): seq<Fragment> {
    if fs == [] then [] else OfScore(fs[..|fs| - 1], access, now, score) + IfOfScore(fs[|fs| - 1], access, now, score)
  }

  lemma OfScoreSnoc(fs: seq<Fragment>, f: Fragment, access: map<Key, real>, now: real, score: real)
    ensures OfScore(fs + [f], access, now, score) == OfScore(fs, access, now, score) + IfOfScore(f, access, now, score)
  {
    assert (fs + [f])[..|fs|] == fs;
  }

  lemma NotBoth(f: Fragment, g: Fragment, access: map<Key, real>, now: real, score: real)
    requires Score(f, access, now) != Score(g, access, now)
    ensures IfOfScore(f, access, now, score) == [] || IfOfScore(g, access, now, score) == []
  {
  }

  lemma Exchange(a: seq<Fragment>, b: seq<Fragment>, c: seq<Fragment>)
    requires b == [] || c == []
    ensures a + b + c == a + c + b
  {
  }

  lemma {:induction false} PlaceIsStable(f: Fragment, fs: seq<Fragment>, access: map<Key, real>, now: real, score: real)
    ensures OfScore(Place(f, fs, access, now), access, now, score) == OfScore(fs, access, now, score) + IfOfScore(f, access, now, score)
  {
    if fs == [] || Score(fs[|fs| - 1], access, now) <= Score(f, access, now) {
      OfScoreSnoc(fs, f, access, now, score);
    } else {
      var init, last := fs[..|fs| - 1], fs[|fs| - 1];
      PlaceIsStable(f, init, access, now, score);
      OfScoreSnoc(Place(f, init, access, now), last, access, now, score);
      NotBoth(f, last, access, now, score);
      Exchange(OfScore(init, access, now, score), IfOfScore(f, access, now, score), IfOfScore(last, access, now, score));
    }
  }

  /** Candidates of one score stay in the order in which they came, so that with
      `WeightedLruAscends` the order is the only one. */
  lemma {:induction false} WeightedLruIsStable(fs: seq<Fragment>, access: map<Key, real>, now: real, score: real)
    ensures OfScore(WeightedLru(fs, access, now), access, now, score) == OfScore(fs, access, now, score)
  {
    if fs != [] {
      WeightedLruIsStable(fs[..|fs| - 1], access, now, score);
      PlaceIsStable(fs[|fs| - 1], WeightedLru(fs[..|fs| - 1], access, now), access, now, score);
    }
  }

  lemma {:induction false} PlaceKeys(f: Fragment, fs: seq<Fragment>, access: map<Key, real>, now: real)
    ensures Keys(Place(f, fs, access, now)) == Keys(fs) + {KeyOf(f)}
  {
    if fs == [] || Score(fs[|fs| - 1], access, now) <= Score(f, access, now) {
      SnocKeys(fs, f);
    } else {
      PlaceKeys(f, fs[..|fs| - 1], access, now);
      SnocKeys(Place(f, fs[..|fs| - 1], access, now), fs[|fs| - 1]);
    }
  }

  lemma {:induction false} PlaceDistinct(f: Fragment, fs: seq<Fragment>, access: map<Key, real>, now: real)
    requires DistinctKeys(fs) && KeyOf(f) !in Keys(fs)
    ensures DistinctKeys(Place(f, fs, access, now))
  {
    if fs == [] || Score(fs[|fs| - 1], access, now) <= Score(f, access, now) {
      SnocKeys(fs, f);
    } else {
      PlaceDistinct(f, fs[..|fs| - 1], access, now);
      PlaceKeys(f, fs[..|fs| - 1], access, now);
      SnocKeys(Place(f, fs[..|fs| - 1], access, now), fs[|fs| - 1]);
    }
  }

  lemma {:induction false} WeightedLruDistinct(fs: seq<Fragment>, access: map<Key, real>, now: real)
    ensures Keys(WeightedLru(fs, access, now)) == Keys(fs)
    ensures DistinctKeys(fs) ==> DistinctKeys(WeightedLru(fs, access, now))
  {
    if fs != [] {
      WeightedLruDistinct(fs[..|fs| - 1], access, now);
      PlaceKeys(fs[|fs| - 1], WeightedLru(fs[..|fs| - 1], access, now), access, now);
      if DistinctKeys(fs) {
        PlaceDistinct(fs[|fs| - 1], WeightedLru(fs[..|fs| - 1], access, now), access, now);
      }
    }
  }

  /** The default policy is a policy. */
  lemma WeightedLruOrders()
    ensures Orders(WeightedLru)
  {
    forall fs, access, now | DistinctKeys(fs)
      ensures DistinctKeys(WeightedLru(fs, access, now))
      ensures forall f :: f in WeightedLru(fs, access, now) <==> f in fs
    {
      WeightedLruDistinct(fs, access, now);
      assert forall f :: f in WeightedLru(fs, access, now) <==> f in multiset(WeightedLru(fs, access, now));
      assert forall f :: f in fs <==> f in multiset(fs);
    }
  }

  // --- Blobs --------------------------------------------------------------------

  /** The blobs left after the residents `before` have shrunk to `after`: what the
      last referrer took with it is gone, everything else is still there. */
  function BlobsLeft(blobs: set<Hash>, before: seq<Fragment>, after: seq<Fragment>): set<Hash> {
    blobs - (Refs(before) - Refs(after))
  }

  lemma BlobsLeftTwice(blobs: set<Hash>, a: seq<Fragment>, b: seq<Fragment>, c: seq<Fragment>)
    requires Refs(c) <= Refs(b) <= Refs(a)
    ensures BlobsLeft(BlobsLeft(blobs, a, b), b, c) == BlobsLeft(blobs, a, c)
  {
  }

  /** Every resident's bytes are in the content store. */
  predicate Backed(fs: seq<Fragment>, blobs: set<Hash>) { Refs(fs) <= blobs }

  /** Removing residents never takes bytes that a remaining one references. */
  lemma RemovalKeepsBacked(blobs: set<Hash>, fs: seq<Fragment>, gone: set<Key>)
    requires Backed(fs, blobs)
    ensures Backed(Minus(fs, gone), BlobsLeft(blobs, fs, Minus(fs, gone)))
  {
    MinusKeys(fs, gone);
  }

  /** Making room before adding `f` removes `f`'s own bytes exactly when every
      resident that shares them is among the victims (and there is one). */
  predicate RoomTakesBytes(fs: seq<Fragment>, gone: set<Key>, f: Fragment) {
    f.payloadRef.Some? && f.payloadRef.value in Refs(fs) - Refs(Minus(fs, gone))
  }

  lemma AddedIsBackedIff(blobs: set<Hash>, fs: seq<Fragment>, gone: set<Key>, f: Fragment)
    requires Backed(fs, blobs)
    requires f.payloadRef.Some? ==> f.payloadRef.value in blobs
    ensures Backed(Minus(fs, gone) + [f], BlobsLeft(blobs, fs, Minus(fs, gone))) <==> !RoomTakesBytes(fs, gone, f)
  {
    var rest := Minus(fs, gone);
    MinusKeys(fs, gone);
    Snoc(rest, f);
  }
}

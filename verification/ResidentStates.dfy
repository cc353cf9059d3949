/** A node's residency as one value, and what each operation of the node makes of it.
    The class that models the node is proved against these functions; whole runs of
    operations are reasoned about here. */
module ResidentStates {
  import opened Fragments
  import opened Residents

  datatype State = State(
    fragments: seq<Fragment>,
    insertionTimes: map<Key, real>,
    accessTimes: map<Key, real>,
    primary: set<Key>,
    blobs: set<Hash>)

  /** The state once the residents with keys in `gone` have left: all their
      bookkeeping leaves with them, and so do the blobs nobody references any more. */
  function Drop(s: State, gone: set<Key>): State {
    var rest := Minus(s.fragments, gone);
    State(rest, s.insertionTimes - gone, s.accessTimes - gone, s.primary - gone,
          BlobsLeft(s.blobs, s.fragments, rest))
  }

  lemma DropTwice(s: State, a: set<Key>, b: set<Key>)
    ensures Drop(Drop(s, a), b) == Drop(s, a + b)
  {
    MinusTwice(s.fragments, a, b);
    MinusKeys(s.fragments, a);
    MinusKeys(Minus(s.fragments, a), b);
    BlobsLeftTwice(s.blobs, s.fragments, Minus(s.fragments, a), Minus(s.fragments, a + b));
    assert s.insertionTimes - a - b == s.insertionTimes - (a + b);
    assert s.accessTimes - a - b == s.accessTimes - (a + b);
    assert s.primary - a - b == s.primary - (a + b);
  }

  lemma DropNone(s: State)
    ensures Drop(s, {}) == s
  {
    MinusNone(s.fragments, {});
  }

  function Touched(s: State, k: Key, isPrimary: bool, now: real): State {
    s.(accessTimes := s.accessTimes[k := now], primary := if isPrimary then s.primary + {k} else s.primary)
  }

  /** A node's byte budget, and its eviction policy for one operation: the policy's order
      may change with what was used in between. */
  datatype Config = Config(policy: Policy, maxMemory: int)

  function Evictees(c: Config, s: State, now: real, target: int): seq<Fragment> {
    Victims(c.policy, s.fragments, s.insertionTimes, s.accessTimes, now, target)
  }

  /** Whom storing `f` evicts. */
  function MadeRoom(c: Config, s: State, f: Fragment, now: real): seq<Fragment> {
    if Total(s.fragments) + f.size > c.maxMemory then Evictees(c, s, now, f.size) else []
  }

  function Admitted(s: State, f: Fragment, now: real): State {
    s.(fragments := s.fragments + [f], insertionTimes := s.insertionTimes[KeyOf(f) := now])
  }

  function Stored(c: Config, s: State, f: Fragment, isPrimary: bool, now: real): State {
    if f.size > c.maxMemory then s
    else if KeyOf(f) in Keys(s.fragments) then Touched(s, KeyOf(f), isPrimary, now)
    else Touched(Admitted(Drop(s, Keys(MadeRoom(c, s, f, now))), f, now), KeyOf(f), isPrimary, now)
  }

  /** The resident under `k` has outlived its time. */
  predicate IsStale(s: State, k: Key, now: real) {
    exists f :: f in s.fragments && KeyOf(f) == k && Expired(f, s.insertionTimes, now)
  }

  /** A read is recorded unless a later one was. */
  function Seen(accessTimes: map<Key, real>, k: Key, now: real): map<Key, real> {
    if now > (if k in accessTimes then accessTimes[k] else 0.0) then accessTimes[k := now] else accessTimes
  }

  /** Reading records the access, or removes a resident that has expired. */
  function Retrieved(s: State, k: Key, now: real): State {
    if k !in Keys(s.fragments) then s
    else if IsStale(s, k, now) then Drop(s, {k})
    else s.(accessTimes := Seen(s.accessTimes, k, now))
  }

  /** What every operation keeps: distinct keys, an insertion time for exactly the
      residents, and the byte budget. */
  predicate InBudget(maxMemory: int, s: State) {
    && DistinctKeys(s.fragments)
    && s.insertionTimes.Keys == Keys(s.fragments)
    && (s.fragments == [] || Total(s.fragments) <= maxMemory)
  }

  datatype Op =
    | Store(fragment: Fragment, isPrimary: bool, at: real, policy: Policy)
    | Evict(target: int, at: real, policy: Policy)
    | Sweep(at: real)
    | Remove(key: Key)
    | Read(key: Key, at: real)
    | PutBlob(ref: Hash)

  function Apply(maxMemory: int, s: State, op: Op): State {
    match op
    case Store(f, isPrimary, now, policy) => Stored(Config(policy, maxMemory), s, f, isPrimary, now)
    case Evict(target, now, policy) => Drop(s, Keys(Evictees(Config(policy, maxMemory), s, now, target)))
    case Sweep(now) => Drop(s, Keys(ExpiredOf(s.fragments, s.insertionTimes, now)))
    case Remove(k) => Drop(s, {k})
    case Read(k, now) => Retrieved(s, k, now)
    case PutBlob(ref) => s.(blobs := s.blobs + {ref})
  }

  function Run(maxMemory: int, s: State, ops: seq<Op>): State {
    if ops == [] then s else Apply(maxMemory, Run(maxMemory, s, ops[..|ops| - 1]), ops[|ops| - 1])
  }

  /** Residents that leave one after the other have left together. */
  lemma DropJoin(s: State, a: seq<Fragment>, b: seq<Fragment>)
    ensures Drop(Drop(s, Keys(a)), Keys(b)) == Drop(s, Keys(a + b))
  {
    DropTwice(s, Keys(a), Keys(b));
    Append(a, b);
  }

  lemma DropNobody(s: State)
    ensures Drop(s, Keys([])) == s
  {
    DropNone(s);
  }

  /** Residents that leave give back exactly their bytes. */
  lemma {:induction false} Conserved(fs: seq<Fragment>, gone: seq<Fragment>)
    requires DistinctKeys(fs) && DistinctKeys(gone) && forall f :: f in gone ==> f in fs
    ensures Total(Minus(fs, Keys(gone))) == Total(fs) - Total(gone)
  {
    if gone == [] {
      MinusNone(fs, {});
    } else {
      var init, last := gone[..|gone| - 1], gone[|gone| - 1];
      Conserved(fs, init);
      var rest := Minus(fs, Keys(init));
      MinusKeys(fs, Keys(init));
      MinusMembers(fs, Keys(init));
      MinusOne(rest, last, 0);
      MinusTwice(fs, Keys(init), {KeyOf(last)});
    }
  }

  /** Evictees are distinct residents; the table keeps exactly what they do not weigh,
      and either the target is met or nothing stays. */
  lemma EvicteesWeigh(c: Config, s: State, now: real, target: int)
    requires DistinctKeys(s.fragments)
    ensures var victims := Evictees(c, s, now, target);
      && Total(Minus(s.fragments, Keys(victims))) == Total(s.fragments) - Total(victims)
      && (target <= Total(victims) || Minus(s.fragments, Keys(victims)) == [])
  {
    var victims := Evictees(c, s, now, target);
    var plan := Plan(c.policy, s.fragments, s.insertionTimes, s.accessTimes, now);
    PlanIsPermutation(c.policy, s.fragments, s.insertionTimes, s.accessTimes, now);
    DistinctPrefix(plan, |victims|);
    Conserved(s.fragments, victims);
    EvictionSuffices(c.policy, s.fragments, s.insertionTimes, s.accessTimes, now, target);
  }

  /** Stage 1 of an eviction: the expired, in table order, until the target is met. */
  function FirstStage(s: State, now: real, target: int): seq<Fragment> {
    var expired := ExpiredOf(s.fragments, s.insertionTimes, now);
    expired[..Cut(expired, target)]
  }

  /** Stage 2: what was not evicted before, as the policy orders it, until the target
      is met. */
  function SecondStage(c: Config, s: State, now: real, target: int, already: set<Key>): seq<Fragment> {
    var order := c.policy(Minus(s.fragments, already), s.accessTimes, now);
    order[..Cut(order, target)]
  }

  /** Skipping what has already left skips nothing. */
  lemma SkipGone(fs: seq<Fragment>, gone: set<Key>)
    ensures Minus(Minus(fs, gone), gone) == Minus(fs, gone)
  {
    MinusTwice(fs, gone, gone);
    assert gone + gone == gone;
  }

  lemma FirstStageSuffices(c: Config, s: State, now: real, target: int)
    requires target <= Total(FirstStage(s, now, target))
    ensures FirstStage(s, now, target) == Evictees(c, s, now, target)
  {
    var expired := ExpiredOf(s.fragments, s.insertionTimes, now);
    var order := c.policy(Minus(s.fragments, Keys(expired)), s.accessTimes - Keys(expired), now);
    WeightIsTotal(expired, Cut(expired, target));
    WeightGrows(expired, Cut(expired, target), |expired|);
    CutWithin(expired, order, target);
    assert (expired + order)[..Cut(expired, target)] == expired[..Cut(expired, target)];
  }

  lemma FirstStageFallsShort(s: State, now: real, target: int)
    requires Total(FirstStage(s, now, target)) < target
    ensures FirstStage(s, now, target) == ExpiredOf(s.fragments, s.insertionTimes, now)
  {
    var expired := ExpiredOf(s.fragments, s.insertionTimes, now);
    WeightIsTotal(expired, Cut(expired, target));
    CutIsShortest(expired, target, Cut(expired, target));
  }

  lemma TakeBeyond(a: seq<Fragment>, b: seq<Fragment>, k: nat)
    requires k <= |b|
    ensures a + b[..k] == (a + b)[..|a| + k]
  {
  }

  /** The second stage, as it is run after the first. */
  function RestStage(c: Config, s: State, now: real, target: int): seq<Fragment> {
    var first := FirstStage(s, now, target);
    SecondStage(c, Drop(s, Keys(first)), now, target - Total(first), Keys(first))
  }

  /** The two stages in a row take what the plan says. */
  lemma StagesTakeEvictees(c: Config, s: State, now: real, target: int)
    requires Total(FirstStage(s, now, target)) < target
    ensures var first, second := FirstStage(s, now, target), RestStage(c, s, now, target);
      && first + second == Evictees(c, s, now, target)
      && Drop(Drop(s, Keys(first)), Keys(second)) == Drop(s, Keys(first + second))
  {
    FirstStageFallsShort(s, now, target);
    var first := FirstStage(s, now, target);
    var order := c.policy(Minus(s.fragments, Keys(first)), s.accessTimes - Keys(first), now);
    SkipGone(s.fragments, Keys(first));
    WeightIsTotal(first, |first|);
    assert first[..|first|] == first;
    CutBeyond(first, order, target);
    var second := RestStage(c, s, now, target);
    TakeBeyond(first, order, |second|);
    DropJoin(s, first, second);
  }

  /** What the two stages come to: the plan's victims, enough bytes or nobody left. */
  lemma TwoStages(c: Config, s: State, now: real, target: int)
    requires Total(FirstStage(s, now, target)) < target && DistinctKeys(s.fragments)
    ensures var first, second := FirstStage(s, now, target), RestStage(c, s, now, target);
      && first + second == Evictees(c, s, now, target)
      && Drop(Drop(s, Keys(first)), Keys(second)) == Drop(s, Keys(first + second))
      && (target <= Total(first) + Total(second) || Drop(s, Keys(first + second)).fragments == [])
  {
    StagesTakeEvictees(c, s, now, target);
    EvicteesSuffice(c, s, now, target, FirstStage(s, now, target), RestStage(c, s, now, target));
  }

  lemma EvicteesEnough(c: Config, s: State, now: real, target: int)
    requires DistinctKeys(s.fragments)
    ensures var victims := Evictees(c, s, now, target);
      target <= Total(victims) || Drop(s, Keys(victims)).fragments == []
  {
    EvicteesWeigh(c, s, now, target);
  }

  lemma EvicteesSuffice(c: Config, s: State, now: real, target: int, first: seq<Fragment>, second: seq<Fragment>)
    requires DistinctKeys(s.fragments) && first + second == Evictees(c, s, now, target)
    ensures target <= Total(first) + Total(second) || Drop(s, Keys(first + second)).fragments == []
  {
    EvicteesWeigh(c, s, now, target);
    Append(first, second);
  }

  /** A sweep asks for more bytes than there are, so it takes everything expired. */
  lemma SweepTakesAllExpired(s: State, now: real)
    ensures FirstStage(s, now, Total(s.fragments) + 1) == ExpiredOf(s.fragments, s.insertionTimes, now)
  {
    var expired := ExpiredOf(s.fragments, s.insertionTimes, now);
    ExpiredKeys(s.fragments, s.insertionTimes, now);
    var first := FirstStage(s, now, Total(s.fragments) + 1);
    WeightIsTotal(expired, |first|);
    WeightIsTotal(expired, |expired|);
    assert expired[..|expired|] == expired;
    WeightGrows(expired, |first|, |expired|);
    FirstStageFallsShort(s, now, Total(s.fragments) + 1);
  }

  /** After making room a fragment that fits the budget at all fits what is left. */
  lemma RoomIsEnough(c: Config, s: State, f: Fragment, now: real)
    requires InBudget(c.maxMemory, s) && f.size <= c.maxMemory
    ensures Total(Minus(s.fragments, Keys(MadeRoom(c, s, f, now)))) + f.size <= c.maxMemory
  {
    if Total(s.fragments) + f.size > c.maxMemory {
      EvicteesWeigh(c, s, now, f.size);
    } else {
      MinusNone(s.fragments, {});
    }
  }

  lemma DropInBudget(maxMemory: int, s: State, gone: set<Key>)
    requires InBudget(maxMemory, s)
    ensures InBudget(maxMemory, Drop(s, gone))
  {
    MinusKeys(s.fragments, gone);
  }

  lemma AdmittedInBudget(maxMemory: int, s: State, f: Fragment, now: real)
    requires InBudget(maxMemory, s) && KeyOf(f) !in Keys(s.fragments)
    requires Total(s.fragments) + f.size <= maxMemory
    ensures InBudget(maxMemory, Admitted(s, f, now))
  {
    Snoc(s.fragments, f);
  }

  lemma StoredInBudget(c: Config, s: State, f: Fragment, isPrimary: bool, now: real)
    requires InBudget(c.maxMemory, s)
    ensures InBudget(c.maxMemory, Stored(c, s, f, isPrimary, now))
  {
    if f.size <= c.maxMemory && KeyOf(f) !in Keys(s.fragments) {
      var gone := Keys(MadeRoom(c, s, f, now));
      DropInBudget(c.maxMemory, s, gone);
      RoomIsEnough(c, s, f, now);
      MinusKeys(s.fragments, gone);
      AdmittedInBudget(c.maxMemory, Drop(s, gone), f, now);
    }
  }

  /** Over every run the byte budget holds. */
  lemma {:induction false} RunInBudget(maxMemory: int, s: State, ops: seq<Op>)
    requires InBudget(maxMemory, s)
    ensures InBudget(maxMemory, Run(maxMemory, s, ops))
  {
    if ops != [] {
      RunInBudget(maxMemory, s, ops[..|ops| - 1]);
      var mid := Run(maxMemory, s, ops[..|ops| - 1]);
      match ops[|ops| - 1]
      case Store(f, isPrimary, now, policy) => StoredInBudget(Config(policy, maxMemory), mid, f, isPrimary, now);
      case Evict(target, now, policy) => DropInBudget(maxMemory, mid, Keys(Evictees(Config(policy, maxMemory), mid, now, target)));
      case Sweep(now) => DropInBudget(maxMemory, mid, Keys(ExpiredOf(mid.fragments, mid.insertionTimes, now)));
      case Remove(k) => DropInBudget(maxMemory, mid, {k});
      case Read(k, now) => DropInBudget(maxMemory, mid, {k});
      case PutBlob(ref) =>
    }
  }

  // --- What a store does ------------------------------------------------------------

  function PlanOf(c: Config, s: State, now: real): seq<Fragment> {
    Plan(c.policy, s.fragments, s.insertionTimes, s.accessTimes, now)
  }

  /** A new key within the budget: nobody leaves if it fits; otherwise exactly the
      residents leave that come first in the plan, as few as free its size, so that
      without the last of them too little would have been freed. */
  lemma StoreEvictsShortest(c: Config, s: State, f: Fragment, isPrimary: bool, now: real) returns (n: nat)
    requires InBudget(c.maxMemory, s) && f.size <= c.maxMemory && KeyOf(f) !in Keys(s.fragments)
    ensures var plan, t := PlanOf(c, s, now), Stored(c, s, f, isPrimary, now);
      && n <= |plan| && t.fragments == Minus(s.fragments, Keys(plan[..n])) + [f]
      && (if Total(s.fragments) + f.size <= c.maxMemory then n == 0
          else 0 < n && Shortest(plan, f.size, n) && Weight(plan, n - 1) < f.size)
  {
    var plan := PlanOf(c, s, now);
    if Total(s.fragments) + f.size <= c.maxMemory {
      n := 0;
      assert plan[..0] == [];
    } else {
      n := Cut(plan, f.size);
      CutIsShortest(plan, f.size, n);
      RoomTakesSomebody(c, s, f, now);
    }
  }

  /** The bookkeeping of a store: a new key is entered now, one that is resident keeps its
      fragment and its time of insertion; either was used now, and becomes primary exactly
      when asked to or as it was. */
  lemma StoreBooks(c: Config, s: State, f: Fragment, isPrimary: bool, now: real)
    requires InBudget(c.maxMemory, s) && f.size <= c.maxMemory && s.primary <= Keys(s.fragments)
    ensures var t, k := Stored(c, s, f, isPrimary, now), KeyOf(f);
      && k in t.accessTimes && t.accessTimes[k] == now
      && (k in t.primary <==> isPrimary || k in s.primary)
      && k in t.insertionTimes
      && (if k in Keys(s.fragments) then t.fragments == s.fragments && t.insertionTimes == s.insertionTimes && t.blobs == s.blobs
          else t.insertionTimes[k] == now)
  {
  }

  /** The bookkeeping of a read that is served: the later of two accesses is remembered,
      an access that never was counting as time zero, and nothing else changes. */
  lemma ReadBooks(s: State, k: Key, now: real)
    requires k in Keys(s.fragments) && !IsStale(s, k, now)
    ensures var t, last := Retrieved(s, k, now), if k in s.accessTimes then s.accessTimes[k] else 0.0;
      && t == s.(accessTimes := t.accessTimes)
      && (forall j :: j != k ==> (j in t.accessTimes <==> j in s.accessTimes) && (j in t.accessTimes ==> t.accessTimes[j] == s.accessTimes[j]))
      && (if last < now then k in t.accessTimes && t.accessTimes[k] == now else t.accessTimes == s.accessTimes)
  {
  }

  // --- Bytes --------------------------------------------------------------------

  ghost predicate AllBacked(s: State) { Backed(s.fragments, s.blobs) }

  /** An operation can leave a resident without its bytes in two ways only: the bytes
      of a stored fragment were never in the content store, or the room made for it
      was made by evicting every resident that shared those bytes. */
  ghost predicate Harmless(maxMemory: int, s: State, op: Op) {
    op.Store? && op.fragment.size <= maxMemory && KeyOf(op.fragment) !in Keys(s.fragments) && op.fragment.payloadRef.Some? ==>
      && op.fragment.payloadRef.value in s.blobs
      && !RoomTakesBytes(s.fragments, Keys(MadeRoom(Config(op.policy, maxMemory), s, op.fragment, op.at)), op.fragment)
  }

  /** One operation keeps every resident backed exactly when it is harmless. */
  lemma StepKeepsBytesIff(maxMemory: int, s: State, op: Op)
    requires AllBacked(s)
    ensures AllBacked(Apply(maxMemory, s, op)) <==> Harmless(maxMemory, s, op)
  {
    match op
    case Store(f, isPrimary, now, policy) =>
      if f.size <= maxMemory && KeyOf(f) !in Keys(s.fragments) {
        var gone := Keys(MadeRoom(Config(policy, maxMemory), s, f, now));
        var rest := Minus(s.fragments, gone);
        if f.payloadRef.Some? && f.payloadRef.value !in s.blobs {
          Snoc(rest, f);
        } else {
          AddedIsBackedIff(s.blobs, s.fragments, gone, f);
        }
      }
    case Evict(target, now, policy) => RemovalKeepsBacked(s.blobs, s.fragments, Keys(Evictees(Config(policy, maxMemory), s, now, target)));
    case Sweep(now) => RemovalKeepsBacked(s.blobs, s.fragments, Keys(ExpiredOf(s.fragments, s.insertionTimes, now)));
    case Remove(k) => RemovalKeepsBacked(s.blobs, s.fragments, {k});
    case Read(k, now) => RemovalKeepsBacked(s.blobs, s.fragments, {k});
    case PutBlob(ref) =>
  }

  /** Over every run of harmless operations every resident keeps its bytes. */
  lemma {:induction false} RunKeepsBytes(maxMemory: int, s: State, ops: seq<Op>)
    requires AllBacked(s)
    requires forall i :: 0 <= i < |ops| ==> Harmless(maxMemory, Run(maxMemory, s, ops[..i]), ops[i])
    ensures AllBacked(Run(maxMemory, s, ops))
  {
    if ops != [] {
      var init := ops[..|ops| - 1];
      forall i | 0 <= i < |init| ensures Harmless(maxMemory, Run(maxMemory, s, init[..i]), init[i]) {
        assert init[..i] == ops[..i];
      }
      RunKeepsBytes(maxMemory, s, init);
      StepKeepsBytesIff(maxMemory, Run(maxMemory, s, init), ops[|ops| - 1]);
    }
  }

  /** When the last referrer of a blob leaves, in an eviction, a sweep or a removal,
      the blob leaves too; a blob somebody still references, or nobody referenced,
      stays as it was. */
  lemma BlobLeavesWithLastReferrer(s: State, gone: set<Key>, ref: Hash)
    ensures var t := Drop(s, gone);
      ref in t.blobs <==> ref in s.blobs && (0 < Referrers(s.fragments, ref) ==> 0 < Referrers(t.fragments, ref))
  {
    ReferrersRefs(s.fragments, ref);
    ReferrersRefs(Drop(s, gone).fragments, ref);
  }

  /** The harmful case exists: a full node that stores a second tenant's copy of the
      content it holds evicts the first copy, deletes the shared bytes with it, and is
      left with a resident whose bytes are gone. */
  lemma StoreCanLoseItsOwnBytes(c: Config, a: Fragment, b: Fragment, now: real)
    requires a.size == b.size == c.maxMemory > 0
    requires a.tenant != b.tenant && a.payloadRef == b.payloadRef && a.payloadRef.Some?
    ensures var s := State([a], map[KeyOf(a) := now], map[KeyOf(a) := now], {}, {a.payloadRef.value});
      InBudget(c.maxMemory, s) && AllBacked(s) && !AllBacked(Apply(c.maxMemory, s, Store(b, false, now, c.policy)))
  {
    var s := State([a], map[KeyOf(a) := now], map[KeyOf(a) := now], {}, {a.payloadRef.value});
    Snoc([], a);
    assert [] + [a] == [a];
    EvicteesWeigh(c, s, now, b.size);
    var rest := Minus(s.fragments, Keys(Evictees(c, s, now, b.size)));
    SnocMinus([], a, Keys(Evictees(c, s, now, b.size)));
    StepKeepsBytesIff(c.maxMemory, s, Store(b, false, now, c.policy));
  }

  // --- What an acknowledgement means ------------------------------------------------

  /** A peer's answer to a fragment it is sent: refused while the bytes are missing,
      otherwise stored, which may evict; the answer is that of the store. */
  function Replicated(c: Config, s: State, f: Fragment, isPrimary: bool, now: real): (State, bool) {
    if f.payloadRef.Some? && f.payloadRef.value !in s.blobs then (s, false)
    else (Stored(c, s, f, isPrimary, now), f.size <= c.maxMemory)
  }

  /** An acknowledgement means the metadata.  It means the bytes exactly when storing was
      harmless: the room made for the fragment did not take its own bytes. */
  lemma AcknowledgedHasBytesIff(c: Config, s: State, f: Fragment, isPrimary: bool, now: real)
    requires f.payloadRef.Some? && Replicated(c, s, f, isPrimary, now).1
    ensures var t := Replicated(c, s, f, isPrimary, now).0;
      && KeyOf(f) in Keys(t.fragments)
      && (f.payloadRef.value in t.blobs <==> Harmless(c.maxMemory, s, Store(f, isPrimary, now, c.policy)))
  {
  }

  /** Nothing a peer holds is lost by a push it acknowledges exactly when the fragment is
      there already or fits beside the rest. */
  lemma AcknowledgedKeepsRestIff(c: Config, s: State, f: Fragment, isPrimary: bool, now: real)
    requires InBudget(c.maxMemory, s) && Replicated(c, s, f, isPrimary, now).1
    ensures var t := Replicated(c, s, f, isPrimary, now).0;
      Keys(s.fragments) <= Keys(t.fragments) <==>
      KeyOf(f) in Keys(s.fragments) || Total(s.fragments) + f.size <= c.maxMemory
  {
    if KeyOf(f) !in Keys(s.fragments) {
      var gone := MadeRoom(c, s, f, now);
      MinusKeys(s.fragments, Keys(gone));
      Snoc(Minus(s.fragments, Keys(gone)), f);
      if Total(s.fragments) + f.size > c.maxMemory {
        EvicteesWeigh(c, s, now, f.size);
        RoomTakesSomebody(c, s, f, now);
      }
    }
  }

  lemma RoomTakesSomebody(c: Config, s: State, f: Fragment, now: real)
    requires InBudget(c.maxMemory, s) && f.size <= c.maxMemory < Total(s.fragments) + f.size
    ensures Evictees(c, s, now, f.size) != []
    ensures exists k :: k in Keys(Evictees(c, s, now, f.size)) && k in Keys(s.fragments)
  {
    var victims := Evictees(c, s, now, f.size);
    EvicteesWeigh(c, s, now, f.size);
    if victims == [] {
      MinusNone(s.fragments, Keys(victims));
      assert false;
    }
    PlanIsPermutation(c.policy, s.fragments, s.insertionTimes, s.accessTimes, now);
    var v := victims[0];
    assert v in s.fragments;
    KeyIn(victims, v);
    KeyIn(s.fragments, v);
  }

  /** A full peer that is sent a second tenant's copy acknowledges it and has lost the
      bytes of both. */
  lemma AcknowledgedCanLackBytes(c: Config, a: Fragment, b: Fragment, now: real)
    requires a.size == b.size == c.maxMemory > 0
    requires a.tenant != b.tenant && a.payloadRef == b.payloadRef && a.payloadRef.Some?
    ensures var s := State([a], map[KeyOf(a) := now], map[KeyOf(a) := now], {}, {a.payloadRef.value});
      && Replicated(c, s, b, false, now).1
      && b.payloadRef.value !in Replicated(c, s, b, false, now).0.blobs
  {
    var s := State([a], map[KeyOf(a) := now], map[KeyOf(a) := now], {}, {a.payloadRef.value});
    StoreCanLoseItsOwnBytes(c, a, b, now);
    StepKeepsBytesIff(c.maxMemory, s, Store(b, false, now, c.policy));
    AcknowledgedHasBytesIff(c, s, b, false, now);
  }
}

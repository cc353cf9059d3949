/** One node's residency: the fragment table, and the operations of the node that
    admit, evict, expire and serve fragments under a byte budget.  The lower tier,
    tenant checks, quotas, admission policies and hooks are not part of this model,
    so every resident lives in memory and every caller may write. */
module Residency {
  import opened Fragments
  import opened Residents
  import opened ResidentStates

  /** The reference count a dictionary holds for `ref`. */
  function Count(refs: map<Hash, int>, ref: Hash): int { if ref in refs then refs[ref] else 0 }

  /** The reference counts of `fs`. */
  function RefCounts(fs: seq<Fragment>): map<Hash, int> {
    if fs == [] then map[]
    else
      var counts, ref := RefCounts(fs[..|fs| - 1]), fs[|fs| - 1].payloadRef;
      if ref.Some? then counts[ref.value := Count(counts, ref.value) + 1] else counts
  }

  /** The counts after one reference is given back. */
  function Released(refs: map<Hash, int>, ref: Hash): map<Hash, int> {
    var remaining := (if ref in refs then refs[ref] else 1) - 1;
    if remaining > 0 then refs[ref := remaining] else refs - {ref}
  }

  /** The counts after `f` has left. */
  function Forgotten(refs: map<Hash, int>, f: Fragment): map<Hash, int> {
    if f.payloadRef.Some? then Released(refs, f.payloadRef.value) else refs
  }

  /** The dictionary of counts is exact, and keeps no zero. */
  lemma {:induction false} CountsAreReferrers(fs: seq<Fragment>, ref: Hash)
    ensures Count(RefCounts(fs), ref) == Referrers(fs, ref)
    ensures ref in RefCounts(fs) <==> ref in Refs(fs)
  {
    if fs != [] {
      CountsAreReferrers(fs[..|fs| - 1], ref);
      ReferrersRefs(fs[..|fs| - 1], ref);
    }
  }

  lemma SnocCounts(fs: seq<Fragment>, f: Fragment)
    ensures RefCounts(fs + [f]) ==
      if f.payloadRef.Some? then RefCounts(fs)[f.payloadRef.value := Count(RefCounts(fs), f.payloadRef.value) + 1]
      else RefCounts(fs)
  {
    assert (fs + [f])[..|fs|] == fs;
  }

  lemma PopCount(fs: seq<Fragment>, f: Fragment, ref: Hash)
    requires DistinctKeys(fs) && f in fs
    ensures var rest, counts := RefCounts(Minus(fs, {KeyOf(f)})), Forgotten(RefCounts(fs), f);
      (ref in rest <==> ref in counts) && Count(rest, ref) == Count(counts, ref)
  {
    var rest := Minus(fs, {KeyOf(f)});
    CountsAreReferrers(fs, ref);
    CountsAreReferrers(rest, ref);
    ReferrersRefs(fs, ref);
    ReferrersRefs(rest, ref);
    MinusOne(fs, f, ref);
  }

  lemma PopCounts(fs: seq<Fragment>, f: Fragment)
    requires DistinctKeys(fs) && f in fs
    ensures RefCounts(Minus(fs, {KeyOf(f)})) == Forgotten(RefCounts(fs), f)
  {
    var rest, counts := RefCounts(Minus(fs, {KeyOf(f)})), Forgotten(RefCounts(fs), f);
    forall ref: Hash ensures (ref in rest <==> ref in counts) && Count(rest, ref) == Count(counts, ref) {
      PopCount(fs, f, ref);
    }
    SameCounts(rest, counts);
  }

  lemma SameCounts(a: map<Hash, int>, b: map<Hash, int>)
    requires forall ref: Hash :: (ref in a <==> ref in b) && Count(a, ref) == Count(b, ref)
    ensures a == b
  {
    forall ref | ref in a ensures a[ref] == b[ref] {
      assert Count(a, ref) == Count(b, ref);
    }
  }

  /** One resident leaving takes at most its own blob. */
  lemma OneLeaves(fs: seq<Fragment>, f: Fragment)
    requires DistinctKeys(fs) && f in fs
    ensures var rest := Minus(fs, {KeyOf(f)});
      Refs(fs) - Refs(rest) == if f.payloadRef.Some? && f.payloadRef.value !in Refs(rest) then {f.payloadRef.value} else {}
  {
    var rest := Minus(fs, {KeyOf(f)});
    MinusMembers(fs, {KeyOf(f)});
    KeyIn(fs, f);
    forall ref | ref in Refs(fs) - Refs(rest) ensures f.payloadRef == Some(ref) {
      var g := RefFrom(fs, ref);
      if KeyOf(g) == KeyOf(f) {
        SameKeySameFragment(fs, f, g);
      } else {
        KeyIn(rest, g);
      }
    }
  }

  /** The next fragment of an order is still resident once the earlier ones have left. */
  lemma NextVictim(fs: seq<Fragment>, order: seq<Fragment>, i: nat)
    requires DistinctKeys(order) && i < |order| && order[i] in fs
    ensures order[i] in Minus(fs, Keys(order[..i])) && KeyOf(order[i]) in Keys(Minus(fs, Keys(order[..i])))
  {
    DistinctAt(order, i);
    MinusMembers(fs, Keys(order[..i]));
    KeyIn(Minus(fs, Keys(order[..i])), order[i]);
  }

  /** Stopping at the first moment the target is met stops at the cut. */
  lemma StoppedAtCut(order: seq<Fragment>, target: int, n: nat)
    requires n <= |order| && (n == |order| || target <= Total(order[..n]))
    requires n > 0 ==> Total(order[..n]) - order[n - 1].size < target
    ensures Cut(order, target) == n
  {
    WeightIsTotal(order, n);
    CutAt(order, target, n);
  }

  lemma TakeOneMore(order: seq<Fragment>, i: nat)
    requires i < |order|
    ensures order[..i] + [order[i]] == order[..i + 1]
  {
  }

  lemma DropOneMore(s: State, victims: seq<Fragment>, f: Fragment)
    ensures Drop(Drop(s, Keys(victims)), {KeyOf(f)}) == Drop(s, Keys(victims + [f]))
  {
    DropTwice(s, Keys(victims), {KeyOf(f)});
    Snoc(victims, f);
  }

  lemma NoKeysNobody(fs: seq<Fragment>)
    requires Keys(fs) == {}
    ensures fs == []
  {
  }

  /** The state after the first `n` of `order` left, one after the other. */
  ghost function DropEach(start: State, order: seq<Fragment>, n: nat): State
    requires n <= |order|
  {
    if n == 0 then start else Drop(DropEach(start, order, n - 1), {KeyOf(order[n - 1])})
  }

  lemma {:induction false} DropEachIsDrop(start: State, order: seq<Fragment>, n: nat)
    requires n <= |order|
    ensures DropEach(start, order, n) == Drop(start, Keys(order[..n]))
  {
    if n == 0 {
      DropNobody(start);
    } else {
      DropEachIsDrop(start, order, n - 1);
      DropOneMore(start, order[..n - 1], order[n - 1]);
      TakeOneMore(order, n - 1);
    }
  }

  /** Without the last victim the target would have been missed. */
  predicate StopsInTime(victims: seq<Fragment>, freed: int, target: int) {
    victims != [] ==> freed - victims[|victims| - 1].size < target
  }

  /** A round of stage 3 with the neighbours `left` still to come: what it took so far,
      from `start` to `now`. */
  ghost predicate Round(start: State, now: State, neighbors: set<Key>, left: set<Key>, victims: seq<Fragment>, freed: int, target: int) {
    && left <= neighbors && Keys(victims) <= neighbors && Keys(victims) <= Keys(start.fragments)
    && (freed < target ==> neighbors * Keys(now.fragments) <= left)
    && freed == Total(victims) && now == Drop(start, Keys(victims)) && StopsInTime(victims, freed, target)
  }

  lemma RoundSkips(start: State, now: State, neighbors: set<Key>, left: set<Key>, victims: seq<Fragment>, freed: int, target: int, k: Key)
    requires Round(start, now, neighbors, left, victims, freed, target) && k !in Keys(now.fragments)
    ensures Round(start, now, neighbors, left - {k}, victims, freed, target)
  {
  }

  lemma RoundTakes(start: State, now: State, now': State, neighbors: set<Key>, left: set<Key>, victims: seq<Fragment>, freed: int, target: int, f: Fragment)
    requires Round(start, now, neighbors, left, victims, freed, target) && KeyOf(f) in left && freed < target
    requires KeyOf(f) in Keys(start.fragments) && Keys(now'.fragments) == Keys(now.fragments) - {KeyOf(f)}
    requires now' == Drop(start, Keys(victims + [f]))
    ensures Round(start, now', neighbors, left - {KeyOf(f)}, victims + [f], freed + f.size, target)
  {
    Snoc(victims, f);
  }

  /** The neighbours of the first `n` seeds. */
  function NeighborsUpTo(seeds: seq<Key>, n: nat, neighbors: Key -> set<Key>): set<Key>
    requires n <= |seeds|
  {
    if n == 0 then {} else NeighborsUpTo(seeds, n - 1, neighbors) + neighbors(seeds[n - 1])
  }

  lemma {:induction false} NeighborsGrow(seeds: seq<Key>, m: nat, n: nat, neighbors: Key -> set<Key>)
    requires m <= n <= |seeds|
    ensures NeighborsUpTo(seeds, m, neighbors) <= NeighborsUpTo(seeds, n, neighbors)
  {
    if m < n {
      NeighborsGrow(seeds, m, n - 1, neighbors);
    }
  }

  function KeyList(fs: seq<Fragment>): (ks: seq<Key>)
    ensures |ks| == |fs| && forall i :: 0 <= i < |fs| ==> ks[i] == KeyOf(fs[i])
  {
    seq(|fs|, i requires 0 <= i < |fs| => KeyOf(fs[i]))
  }

  class FragmentTable {
    var fragments: seq<Fragment>
    var insertionTimes: map<Key, real>
    var accessTimes: map<Key, real>
    var primary: set<Key>
    var memoryUsage: int
    var payloadRefs: map<Hash, int>

    /** Keys are distinct, every resident has an insertion time and nothing else has,
        and the memory total and the reference counts are exact. */
    ghost predicate Valid()
      reads this
    {
      && DistinctKeys(fragments)
      && insertionTimes.Keys == Keys(fragments)
      && memoryUsage == Total(fragments)
      && payloadRefs == RefCounts(fragments)
    }

    constructor ()
      ensures Valid()
      ensures fragments == [] && insertionTimes == map[] && accessTimes == map[] && primary == {}
    {
      fragments := [];
      insertionTimes, accessTimes, primary := map[], map[], {};
      memoryUsage := 0;
      payloadRefs := map[];
    }

    /** Admits a fragment that is not resident; the caller has checked capacity. */
    method Add(f: Fragment, now: real)
      requires Valid() && KeyOf(f) !in Keys(fragments)
      modifies `fragments, `memoryUsage, `insertionTimes, `payloadRefs
      ensures Valid()
      ensures fragments == old(fragments) + [f]
      ensures insertionTimes == old(insertionTimes)[KeyOf(f) := now]
    {
      Snoc(fragments, f);
      SnocCounts(fragments, f);
      fragments := fragments + [f];
      memoryUsage := memoryUsage + f.size;
      insertionTimes := insertionTimes[KeyOf(f) := now];
      if f.payloadRef.Some? {
        payloadRefs := payloadRefs[f.payloadRef.value := Count(payloadRefs, f.payloadRef.value) + 1];
      }
    }

    /** Records an access, and primary ownership when asked to. */
    method Touch(k: Key, now: real, isPrimary: bool)
      modifies `accessTimes, `primary
      ensures accessTimes == old(accessTimes)[k := now]
      ensures primary == if isPrimary then old(primary) + {k} else old(primary)
    {
      accessTimes := accessTimes[k := now];
      if isPrimary {
        primary := primary + {k};
      }
    }

    /** The resident with a given key. */
    method Get(k: Key) returns (f: Fragment)
      requires k in Keys(fragments)
      ensures f in fragments && KeyOf(f) == k
    {
      ghost var g := KeyFrom(fragments, k);
      f :| f in fragments && KeyOf(f) == k;
    }

    /** Removes a resident and everything recorded about it. */
    method Pop(k: Key) returns (f: Fragment)
      requires Valid() && k in Keys(fragments)
      modifies this
      ensures Valid()
      ensures f in old(fragments) && KeyOf(f) == k
      ensures fragments == Minus(old(fragments), {k})
      ensures insertionTimes == old(insertionTimes) - {k}
      ensures accessTimes == old(accessTimes) - {k} && primary == old(primary) - {k}
    {
      f := Get(k);
      MinusKeys(fragments, {k});
      PopCounts(fragments, f);
      MinusOne(fragments, f, 0);
      fragments := Minus(fragments, {k});
      memoryUsage := memoryUsage - f.size;
      primary := primary - {k};
      accessTimes := accessTimes - {k};
      insertionTimes := insertionTimes - {k};
      if f.payloadRef.Some? {
        payloadRefs := Released(payloadRefs, f.payloadRef.value);
      }
    }

    /** How many residents reference a blob. */
    method References(ref: Hash) returns (n: int)
      requires Valid()
      ensures n == Referrers(fragments, ref)
      ensures n > 0 <==> ref in Refs(fragments)
    {
      CountsAreReferrers(fragments, ref);
      ReferrersRefs(fragments, ref);
      n := Count(payloadRefs, ref);
    }

    /** Every resident past its time to live, in table order. */
    method ExpiredNow(now: real) returns (r: seq<Fragment>)
      ensures r == ExpiredOf(fragments, insertionTimes, now)
    {
      r := [];
      for i := 0 to |fragments|
        invariant r == ExpiredOf(fragments[..i], insertionTimes, now)
      {
        assert fragments[..i + 1][..i] == fragments[..i];
        if Expired(fragments[i], insertionTimes, now) {
          r := r + [fragments[i]];
        }
      }
      assert fragments[..|fragments|] == fragments;
    }
  }

  class Node {
    const table: FragmentTable
    const maxMemory: int
    var blobs: set<Hash>

    /** The table is exact, the policy only orders, and the budget is kept.  (With a
        negative budget nothing is ever resident.) */
    ghost predicate Valid()
      reads this, table
    {
      && table.Valid()
      && (table.fragments == [] || table.memoryUsage <= maxMemory)
    }

    ghost function Now(): State
      reads this, table
    {
      State(table.fragments, table.insertionTimes, table.accessTimes, table.primary, blobs)
    }

    constructor (maxMemory: int, blobs: set<Hash>)
      ensures Valid() && fresh(table) && this.maxMemory == maxMemory
      ensures Now() == State([], map[], map[], {}, blobs)
    {
      table := new FragmentTable();
      this.maxMemory, this.blobs := maxMemory, blobs;
    }

    /** The content store receives a blob; producers do this before they hand the
        fragment over. */
    method PutBlob(ref: Hash)
      requires Valid()
      modifies `blobs
      ensures Valid() && blobs == old(blobs) + {ref}
    {
      blobs := blobs + {ref};
    }

    /** Removes one resident, and its blob when it was the last to reference it. */
    method RemoveFragment(k: Key) returns (f: Fragment)
      requires Valid() && k in Keys(table.fragments)
      modifies this, table
      ensures Valid()
      ensures f in old(table.fragments) && KeyOf(f) == k
      ensures Now() == Drop(old(Now()), {k})
    {
      ghost var before := table.fragments;
      MinusKeys(before, {k});
      f := table.Pop(k);
      OneLeaves(before, f);
      if f.payloadRef.Some? {
        var n := table.References(f.payloadRef.value);
        if n == 0 {
          blobs := blobs - {f.payloadRef.value};
        }
      }
    }

    /** One turn of a removal loop: after the first `i` fragments of `order`, the next. */
    method RemoveNext(order: seq<Fragment>, i: nat, ghost start: State) returns (f: Fragment)
      requires Valid() && DistinctKeys(order) && i < |order| && order[i] in start.fragments
      requires Now() == DropEach(start, order, i)
      modifies this, table
      ensures Valid() && f == order[i]
      ensures Now() == DropEach(start, order, i + 1)
    {
      DropEachIsDrop(start, order, i);
      NextVictim(start.fragments, order, i);
      ghost var here := table.fragments;
      f := RemoveFragment(KeyOf(order[i]));
      SameKeySameFragment(here, f, order[i]);
    }

    /** The removal loop of the eviction stages: the first `n` residents of the given
        order go, `n` being the first moment the target is met. */
    method RemoveUntil(order: seq<Fragment>, target: int) returns (n: nat, freed: int)
      requires Valid() && DistinctKeys(order)
      requires forall i :: 0 <= i < |order| ==> order[i] in table.fragments
      modifies this, table
      ensures Valid() && n <= |order| && Now() == DropEach(old(Now()), order, n)
      ensures freed == Weight(order, n)
      ensures n == |order| || target <= freed
      ensures n > 0 ==> freed - order[n - 1].size < target
    {
      ghost var start := Now();
      n, freed := 0, 0;
      while n < |order| && freed < target
        invariant Valid() && n <= |order| && Now() == DropEach(start, order, n)
        invariant freed == Weight(order, n)
        invariant n > 0 ==> freed - order[n - 1].size < target
      {
        var f := RemoveNext(order, n, start);
        n, freed := n + 1, freed + f.size;
      }
    }

    method RemoveInOrder(order: seq<Fragment>, target: int) returns (victims: seq<Fragment>, freed: int)
      requires Valid() && DistinctKeys(order)
      requires forall i :: 0 <= i < |order| ==> order[i] in table.fragments
      modifies this, table
      ensures Valid()
      ensures victims == order[..Cut(order, target)] && freed == Total(victims)
      ensures Now() == Drop(old(Now()), Keys(victims))
    {
      var n;
      n, freed := RemoveUntil(order, target);
      WeightIsTotal(order, n);
      DropEachIsDrop(old(Now()), order, n);
      StoppedAtCut(order, target, n);
      victims := order[..n];
    }

    /** Stage 1: the expired, in table order. */
    method EvictExpired(target: int, now: real) returns (victims: seq<Fragment>, freed: int)
      requires Valid()
      modifies this, table
      ensures Valid()
      ensures victims == FirstStage(old(Now()), now, target)
      ensures freed == Total(victims) && Now() == Drop(old(Now()), Keys(victims))
    {
      var expired := table.ExpiredNow(now);
      ExpiredMembers(table.fragments, table.insertionTimes, now);
      ExpiredKeys(table.fragments, table.insertionTimes, now);
      victims, freed := RemoveInOrder(expired, target);
    }

    /** Stage 2: the residents not evicted before, as the policy orders them. */
    method EvictLru(policy: Policy, target: int, now: real, alreadyEvicted: set<Key>) returns (victims: seq<Fragment>, freed: int)
      requires Valid()
      modifies this, table
      ensures Valid()
      ensures victims == SecondStage(Config(policy, maxMemory), old(Now()), now, target, alreadyEvicted)
      ensures freed == Total(victims) && Now() == Drop(old(Now()), Keys(victims))
    {
      var candidates := Minus(table.fragments, alreadyEvicted);
      MinusMembers(table.fragments, alreadyEvicted);
      MinusKeys(table.fragments, alreadyEvicted);
      var order := policy(candidates, table.accessTimes, now);
      victims, freed := RemoveInOrder(order, target);
    }

    /** Stage 3: resident graph neighbours of what was evicted.  Only residents that
        neighbour a seed go, none of them beyond what the target needed, and when the
        target is missed no seed has a resident neighbour left. */
    method EvictGraphNeighbors(target: int, seeds: seq<Key>, neighbors: Key -> set<Key>)
        returns (victims: seq<Fragment>, freed: int)
      requires Valid()
      modifies this, table
      ensures Valid()
      ensures Keys(victims) <= NeighborsUpTo(seeds, |seeds|, neighbors) && Keys(victims) <= old(Keys(table.fragments))
      ensures freed < target ==> NeighborsUpTo(seeds, |seeds|, neighbors) !! Keys(table.fragments)
      ensures freed == Total(victims) && Now() == Drop(old(Now()), Keys(victims))
      ensures StopsInTime(victims, freed, target)
    {
      ghost var start := Now();
      victims, freed := [], 0;
      DropNobody(start);
      var i := 0;
      while i < |seeds| && freed < target
        invariant i <= |seeds| && Valid()
        invariant Keys(victims) <= NeighborsUpTo(seeds, i, neighbors) && Keys(victims) <= Keys(start.fragments)
        invariant freed < target ==> NeighborsUpTo(seeds, i, neighbors) !! Keys(table.fragments)
        invariant freed == Total(victims) && Now() == Drop(start, Keys(victims)) && StopsInTime(victims, freed, target)
      {
        victims, freed := EvictSeed(target, seeds, i, neighbors, victims, freed, start);
        i := i + 1;
      }
      NeighborsGrow(seeds, i, |seeds|, neighbors);
    }

    /** One removal of stage 3, after the removals of `victims`. */
    method RemoveAfter(k: Key, ghost start: State, ghost victims: seq<Fragment>) returns (f: Fragment)
      requires Valid() && k in Keys(table.fragments) && Now() == Drop(start, Keys(victims))
      modifies this, table
      ensures Valid() && f in start.fragments && KeyOf(f) == k
      ensures Keys(table.fragments) == old(Keys(table.fragments)) - {k}
      ensures k in Keys(start.fragments) && Keys(victims + [f]) == Keys(victims) + {k}
      ensures Now() == Drop(start, Keys(victims + [f])) && Total(victims + [f]) == Total(victims) + f.size
    {
      MinusMembers(start.fragments, Keys(victims));
      MinusKeys(start.fragments, Keys(victims));
      MinusKeys(table.fragments, {k});
      f := RemoveFragment(k);
      DropOneMore(start, victims, f);
      Snoc(victims, f);
    }

    /** The inner loop of stage 3, over the neighbours of one seed. */
    method EvictNeighborsOf(target: int, seed: Key, neighbors: Key -> set<Key>)
        returns (victims: seq<Fragment>, freed: int)
      requires Valid()
      modifies this, table
      ensures Valid()
      ensures Keys(victims) <= neighbors(seed) && Keys(victims) <= old(Keys(table.fragments))
      ensures freed < target ==> neighbors(seed) !! Keys(table.fragments)
      ensures freed == Total(victims) && Now() == Drop(old(Now()), Keys(victims))
      ensures StopsInTime(victims, freed, target)
    {
      ghost var start := Now();
      victims, freed := [], 0;
      DropNobody(start);
      var left := neighbors(seed);
      while left != {}
        invariant Valid() && Round(start, Now(), neighbors(seed), left, victims, freed, target)
        decreases left
      {
        var k :| k in left;
        if k in Keys(table.fragments) {
          if freed >= target {
            break;
          }
          ghost var now := Now();
          var f := RemoveAfter(k, start, victims);
          RoundTakes(start, now, Now(), neighbors(seed), left, victims, freed, target, f);
          victims, freed := victims + [f], freed + f.size;
        } else {
          RoundSkips(start, Now(), neighbors(seed), left, victims, freed, target, k);
        }
        left := left - {k};
      }
    }

    /** One round of stage 3, after the rounds that took `before`. */
    method EvictSeed(target: int, seeds: seq<Key>, i: nat, neighbors: Key -> set<Key>, before: seq<Fragment>, soFar: int, ghost start: State)
        returns (victims: seq<Fragment>, freed: int)
      requires Valid() && i < |seeds| && soFar == Total(before) < target && Now() == Drop(start, Keys(before))
      requires Keys(before) <= NeighborsUpTo(seeds, i, neighbors) && Keys(before) <= Keys(start.fragments)
      requires NeighborsUpTo(seeds, i, neighbors) !! Keys(table.fragments)
      modifies this, table
      ensures Valid()
      ensures Keys(victims) <= NeighborsUpTo(seeds, i + 1, neighbors) && Keys(victims) <= Keys(start.fragments)
      ensures freed < target ==> NeighborsUpTo(seeds, i + 1, neighbors) !! Keys(table.fragments)
      ensures freed == Total(victims) && Now() == Drop(start, Keys(victims)) && StopsInTime(victims, freed, target)
    {
      ghost var here := table.fragments;
      var more, got := EvictNeighborsOf(target - soFar, seeds[i], neighbors);
      MinusKeys(here, Keys(more));
      MinusKeys(start.fragments, Keys(before));
      Append(before, more);
      DropJoin(start, before, more);
      victims, freed := before + more, soFar + got;
    }

    /** Evicts the shortest prefix of the plan that frees `target` bytes, or everything;
        nothing else changes.  The third stage adds no victim. */
    method Evict(policy: Policy, target: int, now: real, neighbors: Key -> set<Key>) returns (victims: seq<Fragment>)
      requires Valid()
      modifies this, table
      ensures Valid()
      ensures victims == Evictees(Config(policy, maxMemory), old(Now()), now, target)
      ensures Now() == Drop(old(Now()), Keys(victims))
      ensures target <= Total(victims) || table.fragments == []
    {
      if target <= 0 {
        DropNobody(Now());
        return [];
      }
      ghost var start := Now();
      EvicteesEnough(Config(policy, maxMemory), start, now, target);
      var first, freed := EvictExpired(target, now);
      if freed >= target {
        FirstStageSuffices(Config(policy, maxMemory), start, now, target);
        return first;
      }
      victims := EvictBeyond(policy, target, now, neighbors, first, freed, start);
    }

    /** What is left to do when the first stage falls short. */
    method EvictBeyond(policy: Policy, target: int, now: real, neighbors: Key -> set<Key>, first: seq<Fragment>, soFar: int, ghost start: State)
        returns (victims: seq<Fragment>)
      requires Valid() && DistinctKeys(start.fragments) && Now() == Drop(start, Keys(first))
      requires first == FirstStage(start, now, target) && soFar == Total(first) < target
      modifies this, table
      ensures Valid() && victims == Evictees(Config(policy, maxMemory), start, now, target) && Now() == Drop(start, Keys(victims))
    {
      TwoStages(Config(policy, maxMemory), start, now, target);
      ghost var rest := RestStage(Config(policy, maxMemory), start, now, target);
      victims := EvictMore(policy, target, now, neighbors, first, soFar, rest, Drop(start, Keys(first + rest)));
    }

    /** The second and third stages, when the first has not freed enough: `second` is
        what the second takes, and it ends in the state `end`. */
    method EvictMore(policy: Policy, target: int, now: real, neighbors: Key -> set<Key>, first: seq<Fragment>, soFar: int,
        ghost second: seq<Fragment>, ghost end: State) returns (victims: seq<Fragment>)
      requires Valid() && second == SecondStage(Config(policy, maxMemory), Now(), now, target - soFar, Keys(first))
      requires Drop(Now(), Keys(second)) == end && (target <= soFar + Total(second) || end.fragments == [])
      modifies this, table
      ensures Valid() && victims == first + second && Now() == end
    {
      var taken, more := EvictLru(policy, target - soFar, now, Keys(first));
      victims := first + taken;
      if soFar + more < target {
        var third := EvictNobody(target - soFar - more, KeyList(victims), neighbors);
        victims := victims + third;
      }
    }

    /** Stage 3 when nobody is left. */
    method EvictNobody(target: int, seeds: seq<Key>, neighbors: Key -> set<Key>) returns (victims: seq<Fragment>)
      requires Valid() && table.fragments == []
      modifies this, table
      ensures Valid() && victims == [] && Now() == old(Now())
    {
      ghost var start := Now();
      var freed;
      victims, freed := EvictGraphNeighbors(target, seeds, neighbors);
      NoKeysNobody(victims);
      DropNobody(start);
    }

    /** Evicts every expired resident and nothing else. */
    method SweepExpired(now: real) returns (victims: seq<Fragment>)
      requires Valid()
      modifies this, table
      ensures Valid()
      ensures victims == ExpiredOf(old(table.fragments), old(table.insertionTimes), now)
      ensures Now() == Drop(old(Now()), Keys(victims))
    {
      SweepTakesAllExpired(Now(), now);
      var freed;
      victims, freed := EvictExpired(table.memoryUsage + 1, now);
    }

    /** Stores a fragment.  It fails only for a fragment larger than the whole budget;
        a resident key is only touched; otherwise the fragment becomes the newest
        resident, after the eviction its size calls for. */
    method Store(policy: Policy, f: Fragment, isPrimary: bool, now: real, neighbors: Key -> set<Key>) returns (ok: bool)
      requires Valid()
      modifies this, table
      ensures Valid()
      ensures ok <==> f.size <= maxMemory
      ensures Now() == Stored(Config(policy, maxMemory), old(Now()), f, isPrimary, now)
    {
      if f.size > maxMemory {
        return false;
      }
      if KeyOf(f) !in Keys(table.fragments) {
        ok := Admit(policy, f, now, neighbors);
        if !ok {
          assert false;
          return false;
        }
      }
      table.Touch(KeyOf(f), now, isPrimary);
      return true;
    }

    /** Answers a fragment sent by a peer: refused while its bytes are missing. */
    method Replicate(policy: Policy, f: Fragment, isPrimary: bool, now: real, neighbors: Key -> set<Key>) returns (ok: bool)
      requires Valid()
      modifies this, table
      ensures Valid()
      ensures (Now(), ok) == Replicated(Config(policy, maxMemory), old(Now()), f, isPrimary, now)
    {
      if f.payloadRef.Some? && f.payloadRef.value !in blobs {
        return false;
      }
      ok := Store(policy, f, isPrimary, now, neighbors);
    }

    /** The part of storing that makes room for a new key and enters it. */
    method Admit(policy: Policy, f: Fragment, now: real, neighbors: Key -> set<Key>) returns (ok: bool)
      requires Valid() && f.size <= maxMemory && KeyOf(f) !in Keys(table.fragments)
      modifies this, table
      ensures Valid() && ok && KeyOf(f) in Keys(table.fragments)
      ensures Now() == Admitted(Drop(old(Now()), Keys(MadeRoom(Config(policy, maxMemory), old(Now()), f, now))), f, now)
    {
      ghost var start := Now();
      ok := MakeRoom(policy, f, now, neighbors);
      if !ok {
        assert false;
        return false;
      }
      MinusKeys(start.fragments, Keys(MadeRoom(Config(policy, maxMemory), start, f, now)));
      Enter(f, now);
    }

    /** A new key is entered where there is room for it. */
    method Enter(f: Fragment, now: real)
      requires Valid() && KeyOf(f) !in Keys(table.fragments) && table.memoryUsage + f.size <= maxMemory
      modifies table
      ensures Valid() && KeyOf(f) in Keys(table.fragments) && Now() == Admitted(old(Now()), f, now)
    {
      ghost var before := table.fragments;
      table.Add(f, now);
      Snoc(before, f);
    }

    /** The part of storing that evicts when the fragment would not fit.  Eviction
        always makes enough room, so the insufficient-memory answer is unreachable. */
    method MakeRoom(policy: Policy, f: Fragment, now: real, neighbors: Key -> set<Key>) returns (enough: bool)
      requires Valid() && f.size <= maxMemory
      modifies this, table
      ensures Valid() && enough && table.memoryUsage + f.size <= maxMemory
      ensures Now() == Drop(old(Now()), Keys(MadeRoom(Config(policy, maxMemory), old(Now()), f, now)))
    {
      RoomIsEnough(Config(policy, maxMemory), Now(), f, now);
      DropNobody(Now());
      if table.memoryUsage + f.size > maxMemory {
        var victims := Evict(policy, f.size, now, neighbors);
        if table.memoryUsage + f.size > maxMemory {
          assert false;
          return false;
        }
      }
      return true;
    }

    /** Serves a resident unless it is expired; an expired one is removed instead. */
    method Retrieve(k: Key, now: real) returns (r: Option<Fragment>)
      requires Valid()
      modifies this, table
      ensures Valid()
      ensures r.Some? ==> r.value in old(table.fragments) && KeyOf(r.value) == k
      ensures r.Some? <==> exists f :: f in old(table.fragments) && KeyOf(f) == k && !Expired(f, old(table.insertionTimes), now)
      ensures Now() == Retrieved(old(Now()), k, now)
    {
      if k !in Keys(table.fragments) {
        forall f | f in table.fragments ensures KeyOf(f) != k {
          KeyIn(table.fragments, f);
        }
        return None;
      }
      var f := table.Get(k);
      forall g | g in table.fragments && KeyOf(g) == k ensures g == f {
        SameKeySameFragment(table.fragments, f, g);
      }
      if now > table.insertionTimes[k] + f.ttl {
        assert Expired(f, table.insertionTimes, now);
        var gone := RemoveFragment(k);
        return None;
      }
      table.accessTimes := Seen(table.accessTimes, k, now);
      return Some(f);
    }
  }
}

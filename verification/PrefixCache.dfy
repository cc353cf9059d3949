/** The in-memory prefix cache: an insertion-ordered dictionary of token sequences,
    reordered on every use and bounded by a capacity.

    A handle digests the text of the model, a zero character and the token list joined
    by commas.  That text determines model and tokens (the part after the last zero
    character is the token list), so with ideal hashing the digest stands for the
    pair.  The monotonic clock is a parameter. */
module PrefixCache {
  import opened Fragments

  datatype Digest = Sha(model: string, tokens: seq<int>)

  datatype KVHandle = KVHandle(digest: Digest, modelId: string, tokenLen: nat, createdAt: real)

  datatype Entry = Entry(handle: KVHandle, tokenIds: seq<int>, layerRange: (int, int), lastAccess: real)

  datatype PrefixMatch = PrefixMatch(handle: Option<KVHandle>, tokenLen: nat, isFull: bool)

  const MISS := PrefixMatch(None, 0, false)

  function ForPrefix(modelId: string, tokenIds: seq<int>, now: real): KVHandle {
    KVHandle(Sha(modelId, tokenIds), modelId, |tokenIds|, now)
  }

  /** An entry's handle names its own model and tokens. */
  predicate Honest(e: Entry) {
    e.handle.digest == Sha(e.handle.modelId, e.tokenIds) && e.handle.tokenLen == |e.tokenIds|
  }

  /** An entry answers a query when it is a non-empty prefix of it under its model. */
  predicate Answers(e: Entry, modelId: string, tokenIds: seq<int>) {
    e.handle.modelId == modelId && e.tokenIds != [] && e.tokenIds <= tokenIds
  }

  // --- Recency --------------------------------------------------------------------

  /** When a digest was last used in a log of uses; -1 for never. */
  function LastUse(uses: seq<Digest>, d: Digest): (i: int)
    ensures -1 <= i < |uses|
  {
    if uses == [] then -1
    else if uses[|uses| - 1] == d then |uses| - 1
    else LastUse(uses[..|uses| - 1], d)
  }

  lemma UseAgain(uses: seq<Digest>, d: Digest, used: Digest)
    ensures LastUse(uses + [used], d) == if d == used then |uses| else LastUse(uses, d)
  {
    assert (uses + [used])[..|uses|] == uses;
  }

  /** Every entry was used, and a later entry was used later. */
  predicate ByRecency(entries: seq<Entry>, uses: seq<Digest>) {
    && (forall i :: 0 <= i < |entries| ==> 0 <= LastUse(uses, entries[i].handle.digest))
    && (forall i, j :: 0 <= i < j < |entries| ==>
          LastUse(uses, entries[i].handle.digest) < LastUse(uses, entries[j].handle.digest))
  }

  predicate AllHonest(entries: seq<Entry>) { forall i :: 0 <= i < |entries| ==> Honest(entries[i]) }

  predicate Holds(entries: seq<Entry>, d: Digest) {
    exists i :: 0 <= i < |entries| && entries[i].handle.digest == d
  }

  /** Whatever was used and is no longer held, other than by removal on request, was
      last used before everything that is held. */
  ghost predicate DroppedAreOlder(entries: seq<Entry>, uses: seq<Digest>, removed: set<Digest>) {
    forall d, i :: 0 <= LastUse(uses, d) && !Holds(entries, d) && d !in removed && 0 <= i < |entries| ==>
      LastUse(uses, d) < LastUse(uses, entries[i].handle.digest)
  }

  /** The entry at position `i` moved to the end with a new access time. */
  function MoveToEnd(entries: seq<Entry>, i: nat, now: real): seq<Entry>
    requires i < |entries|
  {
    entries[..i] + entries[i + 1..] + [entries[i].(lastAccess := now)]
  }

  /** Position by position: what was before it stays, what was behind it moves up, and it
      comes last with the new time and nothing else changed. */
  lemma MovedEntries(entries: seq<Entry>, i: nat, now: real, k: nat)
    requires i < |entries| && k < |entries|
    ensures var moved := MoveToEnd(entries, i, now);
      && |moved| == |entries|
      && moved[k] == (if k < i then entries[k] else if k < |entries| - 1 then entries[k + 1]
                      else Entry(entries[i].handle, entries[i].tokenIds, entries[i].layerRange, now))
  {
  }

  /** Using an entry again, by moving it to the end, keeps the order of recency. */
  lemma MoveKeepsRecency(entries: seq<Entry>, uses: seq<Digest>, i: nat, now: real)
    requires i < |entries| && ByRecency(entries, uses)
    ensures ByRecency(MoveToEnd(entries, i, now), uses + [entries[i].handle.digest])
  {
    var d := entries[i].handle.digest;
    var moved := MoveToEnd(entries, i, now);
    forall k | 0 <= k < |moved|
      ensures LastUse(uses + [d], moved[k].handle.digest) ==
        if k == |entries| - 1 then |uses| else LastUse(uses, entries[if k < i then k else k + 1].handle.digest)
    {
      UseAgain(uses, moved[k].handle.digest, d);
    }
  }

  /** So does appending an entry that was not held. */
  lemma AppendKeepsRecency(entries: seq<Entry>, uses: seq<Digest>, e: Entry)
    requires ByRecency(entries, uses)
    requires forall i :: 0 <= i < |entries| ==> entries[i].handle.digest != e.handle.digest
    ensures ByRecency(entries + [e], uses + [e.handle.digest])
  {
    forall k | 0 <= k < |entries| + 1
      ensures LastUse(uses + [e.handle.digest], (entries + [e])[k].handle.digest) ==
        if k == |entries| then |uses| else LastUse(uses, entries[k].handle.digest)
    {
      UseAgain(uses, (entries + [e])[k].handle.digest, e.handle.digest);
    }
  }

  /** Dropping an entry keeps the order. */
  lemma DropKeepsRecency(entries: seq<Entry>, uses: seq<Digest>, i: nat)
    requires i < |entries| && ByRecency(entries, uses)
    ensures ByRecency(entries[..i] + entries[i + 1..], uses)
  {
  }

  lemma MoveKeepsDropped(entries: seq<Entry>, uses: seq<Digest>, removed: set<Digest>, i: nat, now: real)
    requires i < |entries| && DroppedAreOlder(entries, uses, removed)
    ensures DroppedAreOlder(MoveToEnd(entries, i, now), uses + [entries[i].handle.digest], removed)
  {
    var used, moved := entries[i].handle.digest, MoveToEnd(entries, i, now);
    assert moved[|moved| - 1].handle.digest == used;
    forall d | Holds(entries, d) ensures Holds(moved, d) {
      var j :| 0 <= j < |entries| && entries[j].handle.digest == d;
      assert moved[if j < i then j else if j == i then |moved| - 1 else j - 1].handle.digest == d;
    }
    forall d, k | 0 <= LastUse(uses + [used], d) && !Holds(moved, d) && d !in removed && 0 <= k < |moved|
      ensures LastUse(uses + [used], d) < LastUse(uses + [used], moved[k].handle.digest)
    {
      UseAgain(uses, d, used);
      UseAgain(uses, moved[k].handle.digest, used);
      assert k < |moved| - 1 ==> moved[k] == entries[if k < i then k else k + 1];
    }
  }

  lemma AppendKeepsDropped(entries: seq<Entry>, uses: seq<Digest>, removed: set<Digest>, e: Entry)
    requires DroppedAreOlder(entries, uses, removed)
    ensures DroppedAreOlder(entries + [e], uses + [e.handle.digest], removed - {e.handle.digest})
  {
    var used, more := e.handle.digest, entries + [e];
    assert more[|entries|].handle.digest == used;
    forall d | Holds(entries, d) ensures Holds(more, d) {
      var j :| 0 <= j < |entries| && entries[j].handle.digest == d;
      assert more[j].handle.digest == d;
    }
    forall d, k | 0 <= LastUse(uses + [used], d) && !Holds(more, d) && d !in removed - {used} && 0 <= k < |more|
      ensures LastUse(uses + [used], d) < LastUse(uses + [used], more[k].handle.digest)
    {
      UseAgain(uses, d, used);
      UseAgain(uses, more[k].handle.digest, used);
    }
  }

  lemma HoldsWithout(entries: seq<Entry>, i: nat, d: Digest)
    requires i < |entries| && Holds(entries, d) && d != entries[i].handle.digest
    ensures Holds(entries[..i] + entries[i + 1..], d)
  {
    var j :| 0 <= j < |entries| && entries[j].handle.digest == d;
    assert (entries[..i] + entries[i + 1..])[if j < i then j else j - 1].handle.digest == d;
  }

  lemma TailByRecency(entries: seq<Entry>, uses: seq<Digest>)
    requires entries != [] && ByRecency(entries, uses)
    ensures ByRecency(entries[1..], uses)
  {
    var rest := entries[1..];
    forall i | 0 <= i < |rest| ensures 0 <= LastUse(uses, rest[i].handle.digest) {
      assert rest[i] == entries[i + 1];
    }
    forall i, j | 0 <= i < j < |rest| ensures LastUse(uses, rest[i].handle.digest) < LastUse(uses, rest[j].handle.digest) {
      assert rest[i] == entries[i + 1] && rest[j] == entries[j + 1];
    }
  }

  lemma TailIsHonest(entries: seq<Entry>)
    requires entries != [] && AllHonest(entries)
    ensures AllHonest(entries[1..])
  {
  }

  lemma TailIsKept(entries: seq<Entry>, uses: seq<Digest>, removed: set<Digest>)
    requires entries != [] && AllHonest(entries) && ByRecency(entries, uses) && DroppedAreOlder(entries, uses, removed)
    ensures AllHonest(entries[1..]) && ByRecency(entries[1..], uses) && DroppedAreOlder(entries[1..], uses, removed)
  {
    TailIsHonest(entries);
    TailByRecency(entries, uses);
    DropFirstKeepsDropped(entries, uses, removed);
  }

  lemma TailOfTail(entries: seq<Entry>, n: nat)
    requires n < |entries|
    ensures entries[n..][1..] == entries[n + 1..]
  {
  }

  /** Dropping the first entry drops the least recently used one. */
  lemma DropFirstKeepsDropped(entries: seq<Entry>, uses: seq<Digest>, removed: set<Digest>)
    requires entries != [] && ByRecency(entries, uses) && DroppedAreOlder(entries, uses, removed)
    ensures DroppedAreOlder(entries[1..], uses, removed)
  {
    assert entries[..0] + entries[1..] == entries[1..];
    forall d | Holds(entries, d) && d != entries[0].handle.digest ensures Holds(entries[1..], d) {
      HoldsWithout(entries, 0, d);
    }
  }

  lemma RemoveKeepsDropped(entries: seq<Entry>, uses: seq<Digest>, removed: set<Digest>, i: nat)
    requires i < |entries| && DroppedAreOlder(entries, uses, removed)
    ensures DroppedAreOlder(entries[..i] + entries[i + 1..], uses, removed + {entries[i].handle.digest})
  {
    var rest := entries[..i] + entries[i + 1..];
    forall d | Holds(entries, d) && d != entries[i].handle.digest ensures Holds(rest, d) {
      HoldsWithout(entries, i, d);
    }
    forall d, k | 0 <= LastUse(uses, d) && !Holds(rest, d) && d !in removed + {entries[i].handle.digest} && 0 <= k < |rest|
      ensures LastUse(uses, d) < LastUse(uses, rest[k].handle.digest)
    {
      assert rest[k] == entries[if k < i then k else k + 1];
    }
  }

  lemma OneEntryPerDigest(entries: seq<Entry>, uses: seq<Digest>)
    requires ByRecency(entries, uses)
    ensures forall i, j :: 0 <= i < |entries| && 0 <= j < |entries| && entries[i].handle.digest == entries[j].handle.digest ==> i == j
  {
  }

  lemma HeldNeedNoRemoval(entries: seq<Entry>, uses: seq<Digest>, removed: set<Digest>, d: Digest)
    requires DroppedAreOlder(entries, uses, removed) && Holds(entries, d)
    ensures DroppedAreOlder(entries, uses, removed - {d})
  {
  }

  // --- Matching -------------------------------------------------------------------

  /** The length of the longest common prefix. */
  method MatchingPrefixLen(a: seq<int>, b: seq<int>) returns (common: nat)
    ensures common <= |a| && common <= |b| && a[..common] == b[..common]
    ensures common < |a| && common < |b| ==> a[common] != b[common]
  {
    common := 0;
    while common < |a| && common < |b|
      invariant common <= |a| && common <= |b| && a[..common] == b[..common]
    {
      if a[common] != b[common] {
        break;
      }
      common := common + 1;
    }
  }

  class Cache {
    const capacity: nat
    var entries: seq<Entry>
    var hits: nat
    var misses: nat
    /** The uses so far, in order: every insertion and every hit. */
    ghost var uses: seq<Digest>
    /** What was removed on request and not inserted since. */
    ghost var removed: set<Digest>

    ghost predicate Valid()
      reads this
    {
      |entries| <= capacity && Kept()
    }

    ghost predicate Kept()
      reads this
    {
      AllHonest(entries) && ByRecency(entries, uses) && DroppedAreOlder(entries, uses, removed)
    }

    constructor (capacity: nat)
      ensures Valid() && this.capacity == capacity
      ensures entries == [] && uses == [] && removed == {} && hits == 0 && misses == 0
    {
      this.capacity, entries, hits, misses, uses, removed := capacity, [], 0, 0, [], {};
    }

    /** The position of a digest in the dictionary, or its size when it is not held. */
    method Find(d: Digest) returns (i: nat)
      ensures i <= |entries|
      ensures i < |entries| ==> entries[i].handle.digest == d
      ensures forall k :: 0 <= k < i ==> entries[k].handle.digest != d
    {
      i := 0;
      while i < |entries| && entries[i].handle.digest != d
        invariant i <= |entries|
        invariant forall k :: 0 <= k < i ==> entries[k].handle.digest != d
      {
        i := i + 1;
      }
    }

    /** Inserting makes the sequence the most recently used entry.  A held one is only
        refreshed; a new one costs the least recently used entry when the cache is
        full, and is not kept at all when the capacity is zero. */
    method Insert(modelId: string, tokenIds: seq<int>, layerRange: (int, int), now: real) returns (handle: KVHandle)
      requires Valid()
      modifies `entries, `uses, `removed
      ensures Valid()
      ensures handle.digest == Sha(modelId, tokenIds) && handle.tokenLen == |tokenIds| && handle.modelId == modelId
      ensures uses == old(uses) + [handle.digest] && removed == old(removed) - {handle.digest}
      ensures (forall i :: 0 <= i < |old(entries)| ==> old(entries)[i].handle.digest != handle.digest) ==> handle.createdAt == now
      ensures forall i :: 0 <= i < |old(entries)| && old(entries)[i].handle.digest == handle.digest ==>
        entries == MoveToEnd(old(entries), i, now) && handle == old(entries)[i].handle
      ensures (forall i :: 0 <= i < |old(entries)| ==> old(entries)[i].handle.digest != handle.digest) ==>
        var e := Entry(ForPrefix(modelId, tokenIds, now), tokenIds, layerRange, now);
        entries == if capacity == 0 then []
                   else if |old(entries)| < capacity then old(entries) + [e]
                   else old(entries)[1..] + [e]
    {
      handle := ForPrefix(modelId, tokenIds, now);
      var i := Find(handle.digest);
      OneEntryPerDigest(entries, uses);
      if i < |entries| {
        handle := entries[i].handle;
        Use(i, now);
      } else {
        Admit(Entry(handle, tokenIds, layerRange, now));
      }
    }

    /** The entry at position `i` becomes the most recently used. */
    method Use(i: nat, now: real)
      requires Valid() && i < |entries|
      modifies `entries, `uses, `removed
      ensures Valid()
      ensures entries == MoveToEnd(old(entries), i, now)
      ensures uses == old(uses) + [old(entries)[i].handle.digest]
      ensures removed == old(removed) - {old(entries)[i].handle.digest}
    {
      var d := entries[i].handle.digest;
      MoveKeepsRecency(entries, uses, i, now);
      MoveKeepsDropped(entries, uses, removed, i, now);
      entries := MoveToEnd(entries, i, now);
      uses := uses + [d];
      assert entries[|entries| - 1].handle.digest == d;
      HeldNeedNoRemoval(entries, uses, removed, d);
      removed := removed - {d};
    }

    /** A new entry becomes the most recently used, and the cache shrinks back. */
    method Admit(e: Entry)
      requires Valid() && Honest(e) && !Holds(entries, e.handle.digest)
      modifies `entries, `uses, `removed
      ensures Valid()
      ensures entries == if capacity == 0 then []
                         else if |old(entries)| < capacity then old(entries) + [e]
                         else old(entries)[1..] + [e]
      ensures uses == old(uses) + [e.handle.digest] && removed == old(removed) - {e.handle.digest}
    {
      AppendKeepsRecency(entries, uses, e);
      AppendKeepsDropped(entries, uses, removed, e);
      entries := entries + [e];
      uses := uses + [e.handle.digest];
      removed := removed - {e.handle.digest};
      EvictIfNeeded();
    }

    /** Drops the least recently used entry. */
    method DropFirst()
      requires Kept() && entries != []
      modifies `entries
      ensures Kept() && entries == old(entries)[1..]
    {
      TailIsKept(entries, uses, removed);
      entries := entries[1..];
    }

    /** Drops from the front until the size is within capacity. */
    method EvictIfNeeded()
      requires Kept()
      modifies `entries
      ensures Valid()
      ensures entries == if |old(entries)| <= capacity then old(entries) else old(entries)[|old(entries)| - capacity..]
    {
      ghost var dropped := 0;
      while capacity > 0 && |entries| > capacity
        invariant dropped <= |old(entries)| && entries == old(entries)[dropped..]
        invariant dropped > 0 ==> |entries| >= capacity
        invariant Kept()
      {
        DropFirst();
        TailOfTail(old(entries), dropped);
        dropped := dropped + 1;
      }
      if capacity == 0 {
        entries := [];
      }
    }

    /** The longest cached non-empty sequence of the model that is a prefix of the query;
        a miss when there is none.  A hit makes the entry the most recently used one. */
    method Lookup(modelId: string, tokenIds: seq<int>, now: real) returns (found: PrefixMatch)
      requires Valid()
      modifies `entries, `hits, `misses, `uses, `removed
      ensures Valid()
      ensures found.handle.Some? <==> exists i :: 0 <= i < |old(entries)| && Answers(old(entries)[i], modelId, tokenIds)
      ensures found.handle.Some? ==>
        && found.tokenLen <= |tokenIds|
        && found.handle.value.digest == Sha(modelId, tokenIds[..found.tokenLen])
        && (forall i :: 0 <= i < |old(entries)| && Answers(old(entries)[i], modelId, tokenIds) ==>
              |old(entries)[i].tokenIds| <= found.tokenLen)
        && (found.isFull <==> found.tokenLen == |tokenIds|)
        && (exists i :: 0 <= i < |old(entries)| && old(entries)[i].handle == found.handle.value
              && entries == MoveToEnd(old(entries), i, now))
        && uses == old(uses) + [found.handle.value.digest]
        && hits == old(hits) + 1 && misses == old(misses)
      ensures found.handle.None? ==>
        && found == MISS && entries == old(entries) && uses == old(uses) && hits == old(hits)
        && misses == old(misses) + if tokenIds == [] then 0 else 1
    {
      if tokenIds == [] {
        return MISS;
      }
      var best := Longest(modelId, tokenIds);
      if best == |entries| {
        misses := misses + 1;
        return MISS;
      }
      var e := entries[best];
      Use(best, now);
      hits := hits + 1;
      assert tokenIds[..|e.tokenIds|] == e.tokenIds;
      return PrefixMatch(Some(e.handle), e.handle.tokenLen, e.handle.tokenLen == |tokenIds|);
    }

    /** The scan of a lookup: the position of a longest answering entry, or the size of
        the cache when nothing answers. */
    method Longest(modelId: string, tokenIds: seq<int>) returns (best: nat)
      requires AllHonest(entries)
      ensures best <= |entries|
      ensures best < |entries| ==> Answers(entries[best], modelId, tokenIds)
      ensures forall i :: 0 <= i < |entries| && Answers(entries[i], modelId, tokenIds) ==>
        best < |entries| && |entries[i].tokenIds| <= |entries[best].tokenIds|
    {
      best := |entries|;
      var k := 0;
      while k < |entries|
        invariant k <= |entries| && best <= |entries|
        invariant best < |entries| ==> Answers(entries[best], modelId, tokenIds)
        invariant forall i :: 0 <= i < k && Answers(entries[i], modelId, tokenIds) ==>
          best < |entries| && |entries[i].tokenIds| <= |entries[best].tokenIds|
      {
        var entry := entries[k];
        if entry.handle.modelId == modelId {
          var prefixLen := MatchingPrefixLen(entry.tokenIds, tokenIds);
          assert prefixLen == |entry.tokenIds| <==> entry.tokenIds <= tokenIds;
          if prefixLen != 0 && prefixLen == |entry.tokenIds| {
            if best == |entries| || prefixLen > entries[best].handle.tokenLen {
              best := k;
              if prefixLen == |tokenIds| {
                break;
              }
            }
          }
        }
        k := k + 1;
      }
    }

    /** Removes the named entry, and says whether it was there. */
    method Evict(handle: KVHandle) returns (present: bool)
      requires Valid()
      modifies `entries, `removed
      ensures Valid()
      ensures removed == if present then old(removed) + {handle.digest} else old(removed)
      ensures present <==> exists i :: 0 <= i < |old(entries)| && old(entries)[i].handle.digest == handle.digest
      ensures forall i :: 0 <= i < |old(entries)| && old(entries)[i].handle.digest == handle.digest ==>
        entries == old(entries)[..i] + old(entries)[i + 1..]
      ensures !present ==> entries == old(entries)
    {
      var i := Find(handle.digest);
      present := i < |entries|;
      if present {
        DropKeepsRecency(entries, uses, i);
        RemoveKeepsDropped(entries, uses, removed, i);
        removed := removed + {handle.digest};
        OneEntryPerDigest(entries, uses);
        entries := entries[..i] + entries[i + 1..];
      }
    }
  }
}

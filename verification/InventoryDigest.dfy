/** The bucketed inventory digest that a node keeps up to date on every store and
    removal: the exclusive-or of the leaf hashes of each bucket's members. */
module InventoryDigest {
  import opened Fragments

  const BUCKETS := 1024

  /** Content hashes and versions. */
  type Entries = map<Hash, int>

  /** Digest words: how two are combined, the word of no entries, and the word each
      entry contributes to its bucket. */
  datatype Words<!W> = Words(xor: (W, W) -> W, zero: W, leaf: (Hash, int) -> W)

  /** What is used of exclusive-or: the order does not matter, and twice is not at all. */
  ghost predicate Laws<W(!new)>(w: Words<W>) {
    && (forall x, a, b :: w.xor(w.xor(x, a), b) == w.xor(w.xor(x, b), a))
    && (forall x, a :: w.xor(w.xor(x, a), a) == x)
  }

  /** A 64-bit word, as the set of its one bits. */
  type Bits = s: set<nat> | forall i :: i in s ==> i < 64

  function Xor(a: Bits, b: Bits): Bits { (a - b) + (b - a) }

  /** The 64-bit words of the program obey the laws. */
  lemma SixtyFourBitsObey(leaf: (Hash, int) -> Bits)
    ensures Laws<Bits>(Words(Xor, {}, leaf))
  {
    var w: Words<Bits> := Words(Xor, {}, leaf);
    forall x: Bits, a: Bits, b: Bits ensures w.xor(w.xor(x, a), b) == w.xor(w.xor(x, b), a) {
      assert Xor(Xor(x, a), b) == Xor(Xor(x, b), a);
    }
    forall x: Bits, a: Bits ensures w.xor(w.xor(x, a), a) == x {
      assert Xor(Xor(x, a), a) == x;
    }
  }

  /** The exclusive-or of the leaves of some entries, taken in no particular order. */
  ghost function XorOf<W>(w: Words<W>, entries: Entries, keys: set<Hash>): W
    requires keys <= entries.Keys
  {
    if keys == {} then w.zero
    else
      var k := Pick(keys);
      w.xor(XorOf(w, entries, keys - {k}), w.leaf(k, entries[k]))
  }

  ghost function Pick(keys: set<Hash>): (k: Hash)
    requires keys != {}
    ensures k in keys
  {
    var k :| k in keys;
    k
  }

  /** The order does not matter: any entry can be taken out first. */
  lemma {:induction false} XorWithout<W(!new)>(w: Words<W>, entries: Entries, keys: set<Hash>, h: Hash)
    requires Laws(w) && keys <= entries.Keys && h in keys
    ensures XorOf(w, entries, keys) == w.xor(XorOf(w, entries, keys - {h}), w.leaf(h, entries[h]))
    decreases keys
  {
    var k := Pick(keys);
    if k != h {
      XorWithout(w, entries, keys - {k}, h);
      XorWithout(w, entries, keys - {h}, k);
      assert keys - {k} - {h} == keys - {h} - {k};
    }
  }

  /** Only the entries asked about matter. */
  lemma {:induction false} XorFrame<W(!new)>(w: Words<W>, a: Entries, b: Entries, keys: set<Hash>)
    requires Laws(w) && keys <= a.Keys && keys <= b.Keys && forall h :: h in keys ==> a[h] == b[h]
    ensures XorOf(w, a, keys) == XorOf(w, b, keys)
    decreases keys
  {
    if keys != {} {
      var k :| k in keys;
      XorFrame(w, a, b, keys - {k});
      XorWithout(w, a, keys, k);
      XorWithout(w, b, keys, k);
    }
  }

  function Put(entries: Entries, h: Hash, version: int): Entries { entries[h := version] }

  function Drop(entries: Entries, h: Hash): Entries { entries - {h} }

  ghost function Fold<W>(w: Words<W>, entries: Entries): W { XorOf(w, entries, entries.Keys) }

  lemma FoldAdds<W(!new)>(w: Words<W>, entries: Entries, h: Hash, version: int)
    requires Laws(w) && h !in entries
    ensures Fold(w, entries[h := version]) == w.xor(Fold(w, entries), w.leaf(h, version))
  {
    var more := entries[h := version];
    XorWithout(w, more, more.Keys, h);
    assert more.Keys - {h} == entries.Keys;
    XorFrame(w, more, entries, entries.Keys);
  }

  lemma FoldRemoves<W(!new)>(w: Words<W>, entries: Entries, h: Hash)
    requires Laws(w) && h in entries
    ensures Fold(w, entries - {h}) == w.xor(Fold(w, entries), w.leaf(h, entries[h]))
  {
    var rest := entries - {h};
    FoldAdds(w, rest, h, entries[h]);
    assert rest[h := entries[h]] == entries;
  }

  /** Replacing an entry takes its old leaf out and puts the new one in. */
  lemma FoldPut<W(!new)>(w: Words<W>, entries: Entries, h: Hash, version: int)
    requires Laws(w)
    ensures Fold(w, Put(entries, h, version)) ==
      w.xor(if h in entries then w.xor(Fold(w, entries), w.leaf(h, entries[h])) else Fold(w, entries), w.leaf(h, version))
  {
    if h in entries {
      FoldRemoves(w, entries, h);
      assert (entries - {h})[h := version] == Put(entries, h, version);
      FoldAdds(w, entries - {h}, h, version);
    } else {
      FoldAdds(w, entries, h, version);
    }
  }

  /** Recomputes the digest of some entries. */
  method Recompute<W(!new)>(w: Words<W>, entries: Entries) returns (value: W)
    requires Laws(w)
    ensures value == Fold(w, entries)
  {
    value := w.zero;
    var todo := entries.Keys;
    ghost var done: set<Hash> := {};
    while todo != {}
      invariant todo <= entries.Keys && done == entries.Keys - todo
      invariant value == XorOf(w, entries, done)
      decreases todo
    {
      var h :| h in todo;
      todo := todo - {h};
      XorWithout(w, entries, done + {h}, h);
      assert done + {h} - {h} == done;
      value := w.xor(value, w.leaf(h, entries[h]));
      done := done + {h};
    }
    assert done == entries.Keys;
  }

  // --- Histories ----------------------------------------------------------------

  datatype Change = Added(h: Hash, version: int) | Removed(h: Hash)

  datatype Buckets<W> = Buckets(digests: seq<W>, members: seq<Entries>)

  /** The digest of a bucket, moved from one set of entries to the next by the leaves
      that differ. */
  function Moved<W>(w: Words<W>, digest: W, held: Entries, c: Change): W {
    var without := if c.h in held then w.xor(digest, w.leaf(c.h, held[c.h])) else digest;
    if c.Added? then w.xor(without, w.leaf(c.h, c.version)) else without
  }

  function Applied(held: Entries, c: Change): Entries {
    if c.Added? then Put(held, c.h, c.version) else Drop(held, c.h)
  }

  /** Nothing is to be done. */
  predicate IsIdle(held: Entries, c: Change) {
    if c.Added? then c.h in held && held[c.h] == c.version else c.h !in held
  }

  function Stepped<W>(w: Words<W>, bucketOf: Hash -> nat, s: Buckets<W>, c: Change): Buckets<W> {
    var b := bucketOf(c.h);
    if b < |s.digests| && b < |s.members| && !IsIdle(s.members[b], c) then
      Buckets(s.digests[b := Moved(w, s.digests[b], s.members[b], c)], s.members[b := Applied(s.members[b], c)])
    else s
  }

  /** The digest after a history of additions and removals, kept up to date by each. */
  function Kept<W>(w: Words<W>, bucketOf: Hash -> nat, history: seq<Change>): Buckets<W> {
    if history == [] then Buckets(seq(BUCKETS, _ => w.zero), seq(BUCKETS, _ => map[]))
    else Stepped(w, bucketOf, Kept(w, bucketOf, history[..|history| - 1]), history[|history| - 1])
  }

  /** What a history comes to, with no thought of buckets. */
  function Held(history: seq<Change>): Entries {
    if history == [] then map[] else Applied(Held(history[..|history| - 1]), history[|history| - 1])
  }

  function InBucket(bucketOf: Hash -> nat, entries: Entries, b: nat): Entries {
    map h | h in entries && bucketOf(h) == b :: entries[h]
  }

  lemma MovedIsFold<W(!new)>(w: Words<W>, held: Entries, c: Change)
    requires Laws(w)
    ensures Moved(w, Fold(w, held), held, c) == Fold(w, Applied(held, c))
  {
    if c.Added? {
      FoldPut(w, held, c.h, c.version);
    } else if c.h in held {
      FoldRemoves(w, held, c.h);
    } else {
      assert Drop(held, c.h) == held;
    }
  }

  lemma IdleChangesNothing(held: Entries, c: Change)
    requires IsIdle(held, c)
    ensures Applied(held, c) == held
  {
  }

  lemma AppliedInBucket(bucketOf: Hash -> nat, entries: Entries, c: Change, b: nat)
    ensures InBucket(bucketOf, Applied(entries, c), b) ==
      if bucketOf(c.h) == b then Applied(InBucket(bucketOf, entries, b), c) else InBucket(bucketOf, entries, b)
  {
  }

  /** Each bucket holds what the history comes to in it, under the digest that would be
      computed from scratch. */
  lemma {:induction false} KeptIsHeld<W(!new)>(w: Words<W>, bucketOf: Hash -> nat, history: seq<Change>, b: nat)
    requires Laws(w) && b < BUCKETS
    ensures var s := Kept(w, bucketOf, history);
      && |s.digests| == |s.members| == BUCKETS
      && s.members[b] == InBucket(bucketOf, Held(history), b)
      && s.digests[b] == Fold(w, s.members[b])
  {
    if history == [] {
      assert InBucket(bucketOf, map[], b) == map[];
    } else {
      var init, c := history[..|history| - 1], history[|history| - 1];
      KeptIsHeld(w, bucketOf, init, b);
      var held := Kept(w, bucketOf, init).members[b];
      AppliedInBucket(bucketOf, Held(init), c, b);
      if bucketOf(c.h) == b {
        MovedIsFold(w, held, c);
        if IsIdle(held, c) {
          IdleChangesNothing(held, c);
        }
      }
    }
  }

  /** Digests depend on what is held and not on how it came about: two histories, of any
      lengths and orders, that come to the same entries leave the same digests. */
  lemma HistoryIndependent<W(!new)>(w: Words<W>, bucketOf: Hash -> nat, one: seq<Change>, other: seq<Change>)
    requires Laws(w) && Held(one) == Held(other)
    ensures Kept(w, bucketOf, one) == Kept(w, bucketOf, other)
  {
    var s, t := Kept(w, bucketOf, one), Kept(w, bucketOf, other);
    KeptIsHeld(w, bucketOf, one, 0);
    KeptIsHeld(w, bucketOf, other, 0);
    forall b | 0 <= b < BUCKETS ensures s.members[b] == t.members[b] && s.digests[b] == t.digests[b] {
      KeptIsHeld(w, bucketOf, one, b);
      KeptIsHeld(w, bucketOf, other, b);
    }
    assert s.members == t.members && s.digests == t.digests;
  }

  class Digest<W(!new)> {
    const bucketOf: Hash -> nat
    const w: Words<W>
    var digests: seq<W>
    var members: seq<Entries>
    var changes: nat

    /** Each bucket holds only its own hashes, and its digest is the fold of its members. */
    ghost predicate Valid()
      reads this
    {
      && Laws(w) && |digests| == |members| == BUCKETS
      && (forall h :: bucketOf(h) < BUCKETS)
      && (forall b :: 0 <= b < BUCKETS ==> digests[b] == Fold(w, members[b]))
      && (forall b, h :: 0 <= b < BUCKETS && h in members[b] ==> bucketOf(h) == b)
    }

    constructor (bucketOf: Hash -> nat, words: Words<W>)
      requires Laws(words) && forall h :: bucketOf(h) < BUCKETS
      ensures Valid() && this.bucketOf == bucketOf && w == words && changes == 0
      ensures Buckets(digests, members) == Kept(w, bucketOf, [])
      ensures forall b :: 0 <= b < BUCKETS ==> members[b] == map[]
    {
      this.bucketOf, w := bucketOf, words;
      digests := seq(BUCKETS, _ => words.zero);
      members := seq(BUCKETS, _ => map[]);
      changes := 0;
    }

    /** Records a held version: exactly that entry of its bucket changes, and the change is
        counted unless it is none. */
    method Add(h: Hash, version: int)
      requires Valid()
      modifies this
      ensures Valid()
      ensures Buckets(digests, members) == Stepped(w, bucketOf, old(Buckets(digests, members)), Added(h, version))
      ensures members == old(members)[bucketOf(h) := Put(old(members)[bucketOf(h)], h, version)]
      ensures changes == old(changes) + if h in old(members)[bucketOf(h)] && old(members)[bucketOf(h)][h] == version then 0 else 1
    {
      var b := bucketOf(h);
      var held := members[b];
      if h in held && held[h] == version {
        assert Put(held, h, version) == held;
        return;
      }
      FoldPut(w, held, h, version);
      var digest := digests[b];
      if h in held {
        digest := w.xor(digest, w.leaf(h, held[h]));
      }
      SetBucket(b, Put(held, h, version), w.xor(digest, w.leaf(h, version)));
    }

    /** One bucket and its digest change together. */
    method SetBucket(b: nat, entries: Entries, digest: W)
      requires Valid() && b < BUCKETS && digest == Fold(w, entries)
      requires forall h :: h in entries ==> bucketOf(h) == b
      modifies this
      ensures Valid() && members == old(members)[b := entries] && digests == old(digests)[b := digest] && changes == old(changes) + 1
    {
      members := members[b := entries];
      digests := digests[b := digest];
      changes := changes + 1;
    }

    /** Forgets a hash: exactly its entry leaves, and nothing happens if it was not held. */
    method Remove(h: Hash)
      requires Valid()
      modifies this
      ensures Valid()
      ensures Buckets(digests, members) == Stepped(w, bucketOf, old(Buckets(digests, members)), Removed(h))
      ensures members == old(members)[bucketOf(h) := Drop(old(members)[bucketOf(h)], h)]
      ensures changes == old(changes) + if h in old(members)[bucketOf(h)] then 1 else 0
    {
      var b := bucketOf(h);
      var held := members[b];
      if h !in held {
        assert Drop(held, h) == held;
        return;
      }
      FoldRemoves(w, held, h);
      SetBucket(b, Drop(held, h), w.xor(digests[b], w.leaf(h, held[h])));
    }
  }
}

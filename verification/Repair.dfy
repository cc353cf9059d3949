/** Bucket-digest repair: the pass that pages only the buckets whose digest, on
    either side, changed since they were last verified. */
module Repair {
  import opened Fragments

  /** Content hashes and their versions. */
  type Inventory = map<Hash, nat>

  /** The digest of a bucket's contents, and the bucket of each hash. */
  datatype Scheme<!D> = Scheme(fold: Inventory -> D, bucketOf: Hash -> nat)

  /** Ideal digests: different contents, different digests. */
  ghost predicate Injective<D(!new)>(fold: Inventory -> D) {
    forall p: Inventory, q: Inventory :: fold(p) == fold(q) ==> p == q
  }

  /** What one peer's pass meets: the buckets it gets to before it is stopped
      and those whose page request answers; the hashes that are no longer local
      or not reached when their turn comes, those whose push fails without
      effect, and those whose push takes effect but is reported failed. */
  datatype Weather = Weather(reached: set<nat>, answering: set<nat>, gone: set<Hash>, refused: set<Hash>, unconfirmed: set<Hash>)

  // ------------------------------------------------------------ one pass, whole

  function Bucket(bucketOf: Hash -> nat, inv: Inventory, b: nat): Inventory {
    map h | h in inv && bucketOf(h) == b :: inv[h]
  }

  function Buckets(bucketOf: Hash -> nat, inv: Inventory): set<nat> {
    set h | h in inv :: bucketOf(h)
  }

  function VersionHeld(inv: Inventory, h: Hash): nat {
    if h in inv then inv[h] else 0
  }

  /** What paging everything would find to push. */
  function Missing(inv: Inventory, expected: Inventory): set<Hash> {
    set h | h in expected && VersionHeld(inv, h) < expected[h]
  }

  /** The pair remembered for a verified bucket. */
  function StateOf<D>(s: Scheme<D>, seen: Inventory, expected: Inventory, b: nat): (D, D) {
    (s.fold(Bucket(s.bucketOf, seen, b)), s.fold(Bucket(s.bucketOf, expected, b)))
  }

  /** Buckets the pass asks the peer to page. */
  function Paged<D(==)>(s: Scheme<D>, seen: Inventory, expected: Inventory, verified: map<nat, (D, D)>, w: Weather): set<nat> {
    set b | b in Buckets(s.bucketOf, expected) && b in w.reached
      && !(b in verified && verified[b] == StateOf(s, seen, expected, b))
  }

  /** Hashes the pass tries to push. */
  function Attempted<D(==)>(s: Scheme<D>, seen: Inventory, inv: Inventory, expected: Inventory, verified: map<nat, (D, D)>, w: Weather): set<Hash> {
    set h | h in Missing(inv, expected) && h !in w.gone
      && s.bucketOf(h) in Paged(s, seen, expected, verified, w) && s.bucketOf(h) in w.answering
  }

  function Failed<D(==)>(s: Scheme<D>, seen: Inventory, inv: Inventory, expected: Inventory, verified: map<nat, (D, D)>, w: Weather): set<Hash> {
    (set h | h in expected && s.bucketOf(h) in Paged(s, seen, expected, verified, w) && s.bucketOf(h) !in w.answering)
    + PushFailures(s, seen, inv, expected, verified, w)
  }

  /** The peer afterwards.  A peer that holds a hash, at whatever version, keeps
      what it has. */
  function Received<D(==)>(s: Scheme<D>, seen: Inventory, inv: Inventory, expected: Inventory, verified: map<nat, (D, D)>, w: Weather): Inventory {
    map h | h in inv.Keys + (Attempted(s, seen, inv, expected, verified, w) - w.refused) ::
      if h in inv then inv[h] else if h in expected then expected[h] else 0
  }

  predicate AnyIn(bucketOf: Hash -> nat, hs: set<Hash>, b: nat) {
    exists h :: h in hs && bucketOf(h) == b
  }

  function Lookup<D>(table: map<nat, D>, b: nat): Option<D> {
    if b in table then Some(table[b]) else None
  }

  /** Attempted pushes that were reported failed. */
  function PushFailures<D(==)>(s: Scheme<D>, seen: Inventory, inv: Inventory, expected: Inventory, verified: map<nat, (D, D)>, w: Weather): set<Hash> {
    set h | h in Attempted(s, seen, inv, expected, verified, w) && (h in w.refused || h in w.unconfirmed)
  }

  /** What is remembered of bucket `b` afterwards: a paged bucket with nothing
      missing is recorded, one that was filled without a failure is forgotten. */
  function Remembered<D(==)>(s: Scheme<D>, seen: Inventory, inv: Inventory, expected: Inventory, verified: map<nat, (D, D)>, w: Weather, b: nat): Option<(D, D)> {
    if b !in Paged(s, seen, expected, verified, w) || b !in w.answering then Lookup(verified, b)
    else if !AnyIn(s.bucketOf, Missing(inv, expected), b) then Some(StateOf(s, seen, expected, b))
    else if !AnyIn(s.bucketOf, PushFailures(s, seen, inv, expected, verified, w), b) then None
    else Lookup(verified, b)
  }

  /** The verified table afterwards. */
  function Reverified<D(==)>(s: Scheme<D>, seen: Inventory, inv: Inventory, expected: Inventory, verified: map<nat, (D, D)>, w: Weather): map<nat, (D, D)> {
    map b | b in verified.Keys + Paged(s, seen, expected, verified, w) && Remembered(s, seen, inv, expected, verified, w, b).Some?
      :: Remembered(s, seen, inv, expected, verified, w, b).value
  }

  lemma ReverifiedLookup<D>(s: Scheme<D>, seen: Inventory, inv: Inventory, expected: Inventory, verified: map<nat, (D, D)>, w: Weather, b: nat)
    ensures Lookup(Reverified(s, seen, inv, expected, verified, w), b) == Remembered(s, seen, inv, expected, verified, w, b)
  {
  }

  // ----------------------------------------------------------- the kept promise

  /** Nothing of `expected` is missing from `held`. */
  ghost predicate Complete(held: Inventory, expected: Inventory) {
    forall h :: h in expected ==> VersionHeld(held, h) >= expected[h]
  }

  /** A remembered pair stands for contents that were complete. */
  ghost predicate Sound<D(!new)>(fold: Inventory -> D, entry: (D, D)) {
    exists held: Inventory, expected: Inventory ::
      entry == (fold(held), fold(expected)) && Complete(held, expected)
  }

  ghost predicate AllSound<D(!new)>(fold: Inventory -> D, verified: map<nat, (D, D)>) {
    forall b :: b in verified ==> Sound(fold, verified[b])
  }

  /** A bucket has nothing missing exactly when its contents are complete. */
  lemma MissingByBucket(bucketOf: Hash -> nat, inv: Inventory, expected: Inventory, b: nat)
    ensures Complete(Bucket(bucketOf, inv, b), Bucket(bucketOf, expected, b))
      <==> forall h :: h in Missing(inv, expected) ==> bucketOf(h) != b
  {
    if Complete(Bucket(bucketOf, inv, b), Bucket(bucketOf, expected, b)) {
      forall h | h in Missing(inv, expected) ensures bucketOf(h) != b {
        if bucketOf(h) == b && h in Bucket(bucketOf, expected, b) {
          assert false;
        }
      }
    } else {
      var h :| h in Bucket(bucketOf, expected, b)
        && VersionHeld(Bucket(bucketOf, inv, b), h) < Bucket(bucketOf, expected, b)[h];
      assert VersionHeld(Bucket(bucketOf, inv, b), h) == VersionHeld(inv, h);
      assert h in Missing(inv, expected) && bucketOf(h) == b;
    }
  }

  /** A skipped bucket has nothing missing. */
  lemma SkippedIsComplete<D(!new)>(s: Scheme<D>, inv: Inventory, expected: Inventory, verified: map<nat, (D, D)>, b: nat)
    requires Injective(s.fold) && AllSound(s.fold, verified)
    requires b in verified && verified[b] == StateOf(s, inv, expected, b)
    ensures forall h :: h in Missing(inv, expected) ==> s.bucketOf(h) != b
  {
    var held, wanted :| verified[b] == (s.fold(held), s.fold(wanted)) && Complete(held, wanted);
    assert held == Bucket(s.bucketOf, inv, b) && wanted == Bucket(s.bucketOf, expected, b);
    MissingByBucket(s.bucketOf, inv, expected, b);
  }

  lemma ReachedIsPaged<D(!new)>(s: Scheme<D>, seen: Inventory, expected: Inventory, verified: map<nat, (D, D)>, w: Weather)
    requires Injective(s.fold) && AllSound(s.fold, verified)
    ensures forall h :: h in Missing(seen, expected) && s.bucketOf(h) in w.reached ==>
      s.bucketOf(h) in Paged(s, seen, expected, verified, w)
  {
    forall h | h in Missing(seen, expected) && s.bucketOf(h) in w.reached
      ensures s.bucketOf(h) in Paged(s, seen, expected, verified, w)
    {
      var b := s.bucketOf(h);
      assert b in Buckets(s.bucketOf, expected);
      if b in verified && verified[b] == StateOf(s, seen, expected, b) {
        SkippedIsComplete(s, seen, expected, verified, b);
      }
    }
  }

  /** Skipping loses nothing: the pass tries to push exactly what paging every
      bucket it reaches would have found. */
  lemma SkippingLosesNothing<D(!new)>(s: Scheme<D>, inv: Inventory, expected: Inventory, verified: map<nat, (D, D)>, w: Weather)
    requires Injective(s.fold) && AllSound(s.fold, verified)
    ensures Attempted(s, inv, inv, expected, verified, w) ==
      set h | h in Missing(inv, expected) && h !in w.gone && s.bucketOf(h) in w.reached && s.bucketOf(h) in w.answering
  {
    ReachedIsPaged(s, inv, expected, verified, w);
  }

  /** Buckets the pass records as verified: paged, and nothing missing on the page. */
  function Recorded<D(==)>(s: Scheme<D>, seen: Inventory, inv: Inventory, expected: Inventory, verified: map<nat, (D, D)>, w: Weather): set<nat> {
    set b | b in Paged(s, seen, expected, verified, w) && b in w.answering && !AnyIn(s.bucketOf, Missing(inv, expected), b)
  }

  /** Every bucket recorded was already complete when its digest was read. */
  ghost predicate RecordsOnlyComplete<D(!new)>(s: Scheme<D>, seen: Inventory, inv: Inventory, expected: Inventory, verified: map<nat, (D, D)>, w: Weather) {
    forall b :: b in Recorded(s, seen, inv, expected, verified, w) ==>
      Complete(Bucket(s.bucketOf, seen, b), Bucket(s.bucketOf, expected, b))
  }

  lemma RecordedIsRemembered<D>(s: Scheme<D>, seen: Inventory, inv: Inventory, expected: Inventory, verified: map<nat, (D, D)>, w: Weather, b: nat)
    ensures var v := Reverified(s, seen, inv, expected, verified, w);
      if b in Recorded(s, seen, inv, expected, verified, w) then b in v && v[b] == StateOf(s, seen, expected, b)
      else b in v ==> b in verified && v[b] == verified[b]
  {
    ReverifiedLookup(s, seen, inv, expected, verified, w, b);
  }

  /** The digest of a pass and its pages are two reads.  Whatever the pass meets, and
      however the peer changes between the reads, what is remembered stays sound
      exactly when the buckets recorded had been complete at the first read. */
  lemma PassKeepsSoundIff<D(!new)>(s: Scheme<D>, seen: Inventory, inv: Inventory, expected: Inventory, verified: map<nat, (D, D)>, w: Weather)
    requires Injective(s.fold) && AllSound(s.fold, verified)
    ensures AllSound(s.fold, Reverified(s, seen, inv, expected, verified, w))
      <==> RecordsOnlyComplete(s, seen, inv, expected, verified, w)
  {
    var v := Reverified(s, seen, inv, expected, verified, w);
    forall b ensures b in v && Sound(s.fold, v[b]) ==> b in Recorded(s, seen, inv, expected, verified, w) ==>
      Complete(Bucket(s.bucketOf, seen, b), Bucket(s.bucketOf, expected, b))
    {
      RecordedIsRemembered(s, seen, inv, expected, verified, w, b);
    }
    forall b | b in v && RecordsOnlyComplete(s, seen, inv, expected, verified, w) ensures Sound(s.fold, v[b]) {
      RecordedIsRemembered(s, seen, inv, expected, verified, w, b);
      var held, wanted := Bucket(s.bucketOf, seen, b), Bucket(s.bucketOf, expected, b);
      assert b in Recorded(s, seen, inv, expected, verified, w) ==> v[b] == (s.fold(held), s.fold(wanted));
    }
    forall b | b in Recorded(s, seen, inv, expected, verified, w) ensures b in v {
      RecordedIsRemembered(s, seen, inv, expected, verified, w, b);
    }
  }

  /** Nothing came to the peer between the two reads; things may have gone. */
  ghost predicate NothingArrived(seen: Inventory, inv: Inventory) {
    forall h :: h in inv ==> inv[h] <= VersionHeld(seen, h)
  }

  lemma RecordsAreComplete<D(!new)>(s: Scheme<D>, seen: Inventory, inv: Inventory, expected: Inventory, verified: map<nat, (D, D)>, w: Weather)
    requires NothingArrived(seen, inv)
    ensures RecordsOnlyComplete(s, seen, inv, expected, verified, w)
  {
    forall b | b in Recorded(s, seen, inv, expected, verified, w)
      ensures Complete(Bucket(s.bucketOf, seen, b), Bucket(s.bucketOf, expected, b))
    {
      assert Missing(seen, expected) <= Missing(inv, expected);
      MissingByBucket(s.bucketOf, seen, expected, b);
    }
  }

  // ------------------------------------------------------------ what a pass reports

  /** Nothing is lost silently: whatever is expected of a peer in a bucket the pass gets to
      is reported failed, or no longer local, or with the peer afterwards. */
  lemma NothingIsLostSilently<D(!new)>(s: Scheme<D>, inv: Inventory, expected: Inventory, verified: map<nat, (D, D)>, w: Weather, h: Hash)
    requires Injective(s.fold) && AllSound(s.fold, verified)
    requires h in expected && expected[h] >= 1 && s.bucketOf(h) in w.reached
    ensures h in Failed(s, inv, inv, expected, verified, w) || h in w.gone || h in Received(s, inv, inv, expected, verified, w)
  {
    ReachedIsPaged(s, inv, expected, verified, w);
  }

  /** A report has a cause: the bucket's pages were asked for and not answered, or the hash
      was missing and its push was refused or not confirmed. */
  lemma ReportHasCause<D>(s: Scheme<D>, seen: Inventory, inv: Inventory, expected: Inventory, verified: map<nat, (D, D)>, w: Weather, h: Hash)
    ensures h in Failed(s, seen, inv, expected, verified, w) <==>
      && h in expected && s.bucketOf(h) in w.reached
      && !(s.bucketOf(h) in verified && verified[s.bucketOf(h)] == StateOf(s, seen, expected, s.bucketOf(h)))
      && (s.bucketOf(h) in w.answering ==>
            VersionHeld(inv, h) < expected[h] && h !in w.gone && (h in w.refused || h in w.unconfirmed))
  {
    if h in expected {
      assert s.bucketOf(h) in Buckets(s.bucketOf, expected);
    }
  }

  /** The peer afterwards has what it had, and of what was expected and missing exactly
      what was pushed without being refused, in the version expected. */
  lemma PeerGainsExactly<D>(s: Scheme<D>, seen: Inventory, inv: Inventory, expected: Inventory, verified: map<nat, (D, D)>, w: Weather, h: Hash)
    ensures var after := Received(s, seen, inv, expected, verified, w);
      if h in inv then h in after && after[h] == inv[h]
      else
        && (h in after <==> h in Attempted(s, seen, inv, expected, verified, w) && h !in w.refused)
        && (h in after ==> h in expected && after[h] == expected[h])
  {
  }

  /** What the pass remembers of a bucket, by what it found and reported there: a complete
      bucket is recorded, one that was filled is forgotten, any other keeps its entry. */
  lemma TableFollowsReport<D>(s: Scheme<D>, seen: Inventory, inv: Inventory, expected: Inventory, verified: map<nat, (D, D)>, w: Weather, b: nat)
    requires b in Paged(s, seen, expected, verified, w)
    ensures var v := Reverified(s, seen, inv, expected, verified, w);
      var lacking := exists h :: h in expected && s.bucketOf(h) == b && VersionHeld(inv, h) < expected[h];
      var reported := exists h :: h in Failed(s, seen, inv, expected, verified, w) && s.bucketOf(h) == b;
      if b in w.answering && !lacking then b in v && v[b] == StateOf(s, seen, expected, b)
      else if b in w.answering && !reported then b !in v
      else Lookup(v, b) == Lookup(verified, b)
  {
    ReverifiedLookup(s, seen, inv, expected, verified, w, b);
    var failures := PushFailures(s, seen, inv, expected, verified, w);
    if AnyIn(s.bucketOf, failures, b) {
      var h :| h in failures && s.bucketOf(h) == b;
      assert h in Failed(s, seen, inv, expected, verified, w);
    }
    if AnyIn(s.bucketOf, Missing(inv, expected), b) {
      var h :| h in Missing(inv, expected) && s.bucketOf(h) == b;
      assert h in expected && s.bucketOf(h) == b && VersionHeld(inv, h) < expected[h];
    }
  }

  // ------------------------------------------------------- several quiet passes

  /** Nothing goes wrong with what is expected. */
  ghost predicate Calm<D>(s: Scheme<D>, expected: Inventory, w: Weather) {
    && Buckets(s.bucketOf, expected) <= w.reached
    && Buckets(s.bucketOf, expected) <= w.answering
    && expected.Keys !! w.gone + w.refused + w.unconfirmed
  }

  /** Hashes the peer holds at an older version than expected. */
  function Stale(inv: Inventory, expected: Inventory): set<Hash> {
    set h | h in expected && h in inv && inv[h] < expected[h]
  }

  lemma CalmPassPushesMissing<D(!new)>(s: Scheme<D>, inv: Inventory, expected: Inventory, verified: map<nat, (D, D)>, w: Weather)
    requires Injective(s.fold) && AllSound(s.fold, verified) && Calm(s, expected, w)
    ensures Attempted(s, inv, inv, expected, verified, w) == Missing(inv, expected)
    ensures Missing(Received(s, inv, inv, expected, verified, w), expected) == Stale(inv, expected)
    ensures Stale(Received(s, inv, inv, expected, verified, w), expected) == Stale(inv, expected)
  {
    SkippingLosesNothing(s, inv, expected, verified, w);
    forall h | h in Missing(inv, expected) ensures h in Attempted(s, inv, inv, expected, verified, w) {
      assert s.bucketOf(h) in Buckets(s.bucketOf, expected);
    }
  }

  /** After a pass with no failure, the next one pushes nothing exactly when the
      peer held no older version of anything expected: a push does not replace
      what a peer already holds, so an older version is pushed again each time. */
  lemma SecondPassQuietIff<D(!new)>(s: Scheme<D>, inv: Inventory, expected: Inventory, verified: map<nat, (D, D)>, w1: Weather, w2: Weather)
    requires Injective(s.fold) && AllSound(s.fold, verified)
    requires Calm(s, expected, w1) && Calm(s, expected, w2)
    ensures var inv' := Received(s, inv, inv, expected, verified, w1);
      var verified' := Reverified(s, inv, inv, expected, verified, w1);
      && Attempted(s, inv', inv', expected, verified', w2) == Stale(inv, expected)
      && (Attempted(s, inv', inv', expected, verified', w2) == {} <==> Stale(inv, expected) == {})
  {
    RecordsAreComplete(s, inv, inv, expected, verified, w1);
    PassKeepsSoundIff(s, inv, inv, expected, verified, w1);
    CalmPassPushesMissing(s, inv, expected, verified, w1);
    CalmPassPushesMissing(s, Received(s, inv, inv, expected, verified, w1), expected,
      Reverified(s, inv, inv, expected, verified, w1), w2);
  }

  /** A peer that holds an older version, and two passes with no failure: the second
      pushes the hash again, and the peer still holds the old version. */
  lemma StaleIsPushedAgain<D(!new)>(s: Scheme<D>, h: Hash, older: nat, newer: nat, w1: Weather, w2: Weather)
    requires Injective(s.fold) && older < newer
    requires Calm(s, map[h := newer], w1) && Calm(s, map[h := newer], w2)
    ensures var inv, expected := map[h := older], map[h := newer];
      var inv', verified' := Received(s, inv, inv, expected, map[], w1), Reverified(s, inv, inv, expected, map[], w1);
      && inv' == inv
      && Attempted(s, inv', inv', expected, verified', w2) == {h}
      && Received(s, inv', inv', expected, verified', w2) == inv
  {
    var inv, expected := map[h := older], map[h := newer];
    SecondPassQuietIff(s, inv, expected, map[], w1, w2);
    CalmPassPushesMissing(s, inv, expected, map[], w1);
    assert Stale(inv, expected) == {h} && Missing(inv, expected) == {h};
  }

  /** A pass that finds nothing missing verifies every bucket it is asked about
      and leaves the peer as it was. */
  lemma NothingMissingVerifies<D(!new)>(s: Scheme<D>, inv: Inventory, expected: Inventory, verified: map<nat, (D, D)>, w: Weather)
    requires Calm(s, expected, w) && Missing(inv, expected) == {}
    ensures Received(s, inv, inv, expected, verified, w) == inv
    ensures forall b :: b in Buckets(s.bucketOf, expected) ==>
      b in Reverified(s, inv, inv, expected, verified, w)
      && Reverified(s, inv, inv, expected, verified, w)[b] == StateOf(s, inv, expected, b)
  {
  }

  /** With nothing stale and nothing else changing, the third pass pages no
      bucket at all, whatever it meets. */
  lemma ThirdPassPagesNothing<D(!new)>(s: Scheme<D>, inv: Inventory, expected: Inventory, verified: map<nat, (D, D)>,
      w1: Weather, w2: Weather, w3: Weather)
    requires Injective(s.fold) && AllSound(s.fold, verified)
    requires Calm(s, expected, w1) && Calm(s, expected, w2)
    requires Stale(inv, expected) == {}
    ensures var inv1 := Received(s, inv, inv, expected, verified, w1);
      var v1 := Reverified(s, inv, inv, expected, verified, w1);
      var inv2 := Received(s, inv1, inv1, expected, v1, w2);
      var v2 := Reverified(s, inv1, inv1, expected, v1, w2);
      inv2 == inv1 && Paged(s, inv2, expected, v2, w3) == {}
  {
    var inv1 := Received(s, inv, inv, expected, verified, w1);
    var v1 := Reverified(s, inv, inv, expected, verified, w1);
    CalmPassPushesMissing(s, inv, expected, verified, w1);
    NothingMissingVerifies(s, inv1, expected, v1, w2);
  }

  // ---------------------------------------------------------------- any history

  /** One pass: what the peer held when its digests were read and when its pages were
      read, what was expected of it, what was met. */
  datatype Pass = Pass(seen: Inventory, inv: Inventory, expected: Inventory, weather: Weather)

  /** The table after a history of passes, between which and during which the peer's
      inventory changes in any way, as do the local fragments between passes. */
  function VerifiedAfter<D(==)>(s: Scheme<D>, passes: seq<Pass>): map<nat, (D, D)> {
    if passes == [] then map[]
    else
      var k := |passes| - 1;
      var p := passes[k];
      Reverified(s, p.seen, p.inv, p.expected, VerifiedAfter(s, passes[..k]), p.weather)
  }

  /** Each pass recorded only buckets that were complete when it began. */
  ghost predicate Settled<D(!new)>(s: Scheme<D>, passes: seq<Pass>) {
    if passes == [] then true
    else
      var k := |passes| - 1;
      var p := passes[k];
      && Settled(s, passes[..k])
      && RecordsOnlyComplete(s, p.seen, p.inv, p.expected, VerifiedAfter(s, passes[..k]), p.weather)
  }

  /** Nothing needs to be known of the passes but that no fragment reached the peer
      between the two reads of one. */
  lemma {:induction false} NoArrivalsSettle<D(!new)>(s: Scheme<D>, passes: seq<Pass>)
    requires forall k :: 0 <= k < |passes| ==> NothingArrived(passes[k].seen, passes[k].inv)
    ensures Settled(s, passes)
  {
    if passes != [] {
      var k := |passes| - 1;
      var p := passes[k];
      NoArrivalsSettle(s, passes[..k]);
      RecordsAreComplete(s, p.seen, p.inv, p.expected, VerifiedAfter(s, passes[..k]), p.weather);
    }
  }

  /** After every such history, the next pass pages every bucket it reaches that lacks
      something, and with one inventory at both reads it tries to push exactly what is
      missing in the buckets it reaches. */
  lemma {:induction false} EveryPassIsExact<D(!new)>(s: Scheme<D>, passes: seq<Pass>, next: Pass)
    requires Injective(s.fold) && Settled(s, passes)
    ensures AllSound(s.fold, VerifiedAfter(s, passes))
    ensures forall h :: h in Missing(next.seen, next.expected) && s.bucketOf(h) in next.weather.reached ==>
      s.bucketOf(h) in Paged(s, next.seen, next.expected, VerifiedAfter(s, passes), next.weather)
    ensures next.seen == next.inv ==>
      Attempted(s, next.seen, next.inv, next.expected, VerifiedAfter(s, passes), next.weather) ==
      set h | h in Missing(next.inv, next.expected) && h !in next.weather.gone
        && s.bucketOf(h) in next.weather.reached && s.bucketOf(h) in next.weather.answering
  {
    if passes != [] {
      var k := |passes| - 1;
      var p := passes[k];
      EveryPassIsExact(s, passes[..k], p);
      PassKeepsSoundIff(s, p.seen, p.inv, p.expected, VerifiedAfter(s, passes[..k]), p.weather);
    }
    ReachedIsPaged(s, next.seen, next.expected, VerifiedAfter(s, passes), next.weather);
    SkippingLosesNothing(s, next.seen, next.expected, VerifiedAfter(s, passes), next.weather);
  }

  /** The history that breaks it: `h` reaches the peer between the two reads of a pass,
      the bucket is recorded under the digest without `h`, and the peer loses `h`. */
  function LossHistory(h: Hash, version: nat, first: Weather, later: seq<Weather>): seq<Pass> {
    if later == [] then [Pass(map[], map[h := version], map[h := version], first)]
    else LossHistory(h, version, first, later[..|later| - 1]) + [Pass(map[], map[], map[h := version], later[|later| - 1])]
  }

  lemma ArrivalIsRecorded<D>(s: Scheme<D>, h: Hash, version: nat, first: Weather)
    requires s.bucketOf(h) in first.reached && s.bucketOf(h) in first.answering
    ensures var expected := map[h := version];
      Reverified(s, map[], expected, expected, map[], first) == map[s.bucketOf(h) := StateOf(s, map[], expected, s.bucketOf(h))]
  {
    var expected, b := map[h := version], s.bucketOf(h);
    assert Buckets(s.bucketOf, expected) == {b};
    assert Paged(s, map[], expected, map[], first) == {b};
    assert Missing(expected, expected) == {};
  }

  /** However many passes follow, and whatever they meet, none pages the bucket again,
      while `h` stays missing. */
  lemma {:induction false} ArrivalBetweenReadsHidesLoss<D>(s: Scheme<D>, h: Hash, version: nat, first: Weather, later: seq<Weather>, next: Weather)
    requires version > 0 && s.bucketOf(h) in first.reached && s.bucketOf(h) in first.answering
    ensures var expected := map[h := version];
      && VerifiedAfter(s, LossHistory(h, version, first, later)) == map[s.bucketOf(h) := StateOf(s, map[], expected, s.bucketOf(h))]
      && Missing(map[], expected) == {h}
      && Paged(s, map[], expected, VerifiedAfter(s, LossHistory(h, version, first, later)), next) == {}
  {
    var expected, b, passes := map[h := version], s.bucketOf(h), LossHistory(h, version, first, later);
    var k := |passes| - 1;
    assert Buckets(s.bucketOf, expected) == {b};
    if later == [] {
      assert passes[..k] == [];
      ArrivalIsRecorded(s, h, version, first);
    } else {
      var w := later[|later| - 1];
      ArrivalBetweenReadsHidesLoss(s, h, version, first, later[..|later| - 1], w);
      assert passes[..k] == LossHistory(h, version, first, later[..|later| - 1]);
      var v := VerifiedAfter(s, passes[..k]);
      assert Paged(s, map[], expected, v, w) == {};
      assert Reverified(s, map[], map[], expected, v, w) == v;
    }
  }
}

/**
 The cuckoo filter layer of senko-core/src/prob.rs.  A fingerprint may sit in either of two
 buckets; an insert into two full buckets kicks residents to their other bucket.  Hashes are
 parameters and random choices are left open.
 */
module Cuckoo {
  import opened Common
  import opened CuckooBuckets

  // ----- slots -----

  type Bucket = seq<nat>

  /** How many copies of a fingerprint a bucket holds. */
  function Held(bucket: Bucket, fp: nat): nat {
    multiset(bucket)[fp]
  }

  /** `alternate` of a layer, as a function of bucket and fingerprint. */
  type Mover = (nat, nat) -> nat

  ghost predicate Moves(alt: Mover, n: nat) {
    forall i, fp | 0 <= i < n && 0 <= fp :: alt(i, fp) < n && alt(alt(i, fp), fp) == i
  }

  ghost predicate Grid(buckets: seq<Bucket>, n: nat, size: nat) {
    |buckets| == n && forall i | 0 <= i < n :: |buckets[i]| == size
  }

  /** Copies of a fingerprint in bucket `i` and its other bucket together. */
  ghost function Copies(buckets: seq<Bucket>, alt: Mover, fp: nat, i: nat): nat
    requires i < |buckets| && alt(i, fp) < |buckets|
  {
    Held(buckets[i], fp) + if alt(i, fp) == i then 0 else Held(buckets[alt(i, fp)], fp)
  }

  /** One copy of `held`, at home in bucket `at`, as seen from fingerprint `fp` and bucket `i`. */
  ghost function One(alt: Mover, held: nat, at: nat, fp: nat, i: nat): nat {
    if fp == held && (i == at || i == alt(at, fp)) then 1 else 0
  }

  lemma {:induction false} SwapInBucket(bucket: Bucket, s: nat, v: nat, fp: nat)
    requires s < |bucket|
    ensures Held(bucket[s := v], fp) + (if bucket[s] == fp then 1 else 0)
         == Held(bucket, fp) + (if v == fp then 1 else 0)
  {
  }

  function Put(buckets: seq<Bucket>, at: nat, s: nat, v: nat): seq<Bucket>
    requires at < |buckets| && s < |buckets[at]|
  {
    var bucket: Bucket := buckets[at][s := v];
    buckets[at := bucket]
  }

  /** Putting `v` into a slot: what was there is now in the hand, and nothing is lost. */
  lemma {:induction false} SwapConserves(buckets: seq<Bucket>, alt: Mover, n: nat, size: nat, at: nat, s: nat, v: nat, fp: nat, i: nat)
    requires Grid(buckets, n, size) && Moves(alt, n) && at < n && s < size && i < n
    ensures alt(i, fp) < n
    ensures Copies(Put(buckets, at, s, v), alt, fp, i) + One(alt, buckets[at][s], at, fp, i)
         == Copies(buckets, alt, fp, i) + One(alt, v, at, fp, i)
  {
    SwapInBucket(buckets[at], s, v, fp);
    assert alt(i, fp) < n && alt(alt(i, fp), fp) == i;
    assert alt(at, fp) < n && alt(alt(at, fp), fp) == at;
  }

  /** It does not matter which of its two buckets a copy is said to belong to. */
  lemma {:induction false} OneMoves(alt: Mover, n: nat, held: nat, at: nat, fp: nat, i: nat)
    requires Moves(alt, n) && at < n && i < n
    ensures One(alt, held, alt(at, held), fp, i) == One(alt, held, at, fp, i)
  {
    assert alt(alt(at, fp), fp) == at;
  }

  // ----- the layer -----

  /** A fingerprint and one of its two buckets, the lower one, name what is stored. */
  ghost function Home(alt: Mover, fp: nat, i: nat): (nat, nat) {
    (fp, if alt(i, fp) < i then alt(i, fp) else i)
  }

  lemma {:induction false} HomeOfPair(alt: Mover, n: nat, fp: nat, i: nat, j: nat)
    requires Moves(alt, n) && i < n && j < n
    ensures Home(alt, fp, i) == Home(alt, fp, j) <==> i == j || i == alt(j, fp)
  {
    assert alt(alt(i, fp), fp) == i && alt(alt(j, fp), fp) == j;
  }

  /** The buckets hold, with multiplicity, exactly what `stored` names. */
  ghost predicate Holds(buckets: seq<Bucket>, alt: Mover, n: nat, size: nat, stored: multiset<(nat, nat)>) {
    && Grid(buckets, n, size) && Moves(alt, n)
    && forall fp: nat, i: nat | 1 <= fp && i < n ::
         alt(i, fp) < n && Copies(buckets, alt, fp, i) == stored[Home(alt, fp, i)]
  }

  /** The buckets and one copy in the hand together hold what `stored` names. */
  ghost predicate HoldsWith(buckets: seq<Bucket>, alt: Mover, n: nat, size: nat, stored: multiset<(nat, nat)>,
                            held: nat, at: nat) {
    && Grid(buckets, n, size) && Moves(alt, n)
    && forall fp: nat, i: nat | 1 <= fp && i < n ::
         alt(i, fp) < n && Copies(buckets, alt, fp, i) + One(alt, held, at, fp, i) == stored[Home(alt, fp, i)]
  }

  /** Take one more copy into the hand. */
  lemma {:induction false} TakeUp(buckets: seq<Bucket>, alt: Mover, n: nat, size: nat, stored: multiset<(nat, nat)>, fp: nat, at: nat)
    requires Holds(buckets, alt, n, size, stored) && at < n && fp >= 1
    ensures HoldsWith(buckets, alt, n, size, stored + multiset{Home(alt, fp, at)}, fp, at)
  {
    forall f: nat, i: nat | 1 <= f && i < n
      ensures alt(i, f) < n
      ensures Copies(buckets, alt, f, i) + One(alt, fp, at, f, i) == (stored + multiset{Home(alt, fp, at)})[Home(alt, f, i)]
    {
      assert Copies(buckets, alt, f, i) == stored[Home(alt, f, i)];
      HomeOfPair(alt, n, f, i, at);
    }
  }

  /** Exchange the copy in the hand with a slot of its bucket. */
  lemma {:induction false} Exchange(buckets: seq<Bucket>, alt: Mover, n: nat, size: nat, stored: multiset<(nat, nat)>,
                 held: nat, at: nat, s: nat)
    requires HoldsWith(buckets, alt, n, size, stored, held, at) && at < n && s < size
    ensures HoldsWith(Put(buckets, at, s, held), alt, n, size, stored, buckets[at][s], at)
  {
    forall fp: nat, i: nat | 1 <= fp && i < n
      ensures alt(i, fp) < n
      ensures Copies(Put(buckets, at, s, held), alt, fp, i) + One(alt, buckets[at][s], at, fp, i) == stored[Home(alt, fp, i)]
    {
      assert Copies(buckets, alt, fp, i) + One(alt, held, at, fp, i) == stored[Home(alt, fp, i)];
      SwapConserves(buckets, alt, n, size, at, s, held, fp, i);
    }
  }

  /** Carry the copy in the hand to its other bucket. */
  lemma {:induction false} Carry(buckets: seq<Bucket>, alt: Mover, n: nat, size: nat, stored: multiset<(nat, nat)>, held: nat, at: nat)
    requires HoldsWith(buckets, alt, n, size, stored, held, at) && at < n
    ensures HoldsWith(buckets, alt, n, size, stored, held, alt(at, held))
  {
    forall fp: nat, i: nat | 1 <= fp && i < n
      ensures alt(i, fp) < n
      ensures Copies(buckets, alt, fp, i) + One(alt, held, alt(at, held), fp, i) == stored[Home(alt, fp, i)]
    {
      assert Copies(buckets, alt, fp, i) + One(alt, held, at, fp, i) == stored[Home(alt, fp, i)];
      OneMoves(alt, n, held, at, fp, i);
    }
  }

  /** An empty hand holds nothing. */
  lemma {:induction false} EmptyHand(buckets: seq<Bucket>, alt: Mover, n: nat, size: nat, stored: multiset<(nat, nat)>, at: nat)
    requires HoldsWith(buckets, alt, n, size, stored, 0, at)
    ensures Holds(buckets, alt, n, size, stored)
  {
    forall fp: nat, i: nat | 1 <= fp && i < n
      ensures alt(i, fp) < n && Copies(buckets, alt, fp, i) == stored[Home(alt, fp, i)]
    {
      assert Copies(buckets, alt, fp, i) + One(alt, 0, at, fp, i) == stored[Home(alt, fp, i)];
    }
  }

  /** Put down what is in the hand: it counts as stored no longer. */
  lemma {:induction false} Discard(buckets: seq<Bucket>, alt: Mover, n: nat, size: nat, stored: multiset<(nat, nat)>, held: nat, at: nat)
    requires HoldsWith(buckets, alt, n, size, stored, held, at) && at < n && held >= 1
    ensures Home(alt, held, at) in stored
    ensures Holds(buckets, alt, n, size, stored - multiset{Home(alt, held, at)})
  {
    assert Copies(buckets, alt, held, at) + One(alt, held, at, held, at) == stored[Home(alt, held, at)];
    forall fp: nat, i: nat | 1 <= fp && i < n
      ensures alt(i, fp) < n
      ensures Copies(buckets, alt, fp, i) == (stored - multiset{Home(alt, held, at)})[Home(alt, fp, i)]
    {
      assert Copies(buckets, alt, fp, i) + One(alt, held, at, fp, i) == stored[Home(alt, fp, i)];
      HomeOfPair(alt, n, fp, i, at);
    }
  }

  /** First slot with this value; zero marks an empty slot. */
  method FindSlot(bucket: Bucket, value: nat) returns (at: Option<nat>)
    ensures at.None? <==> value !in bucket
    ensures at.Some? ==> at.value < |bucket| && bucket[at.value] == value && value !in bucket[..at.value]
  {
    for s := 0 to |bucket|
      invariant value !in bucket[..s]
    {
      if bucket[s] == value {
        return Some(s);
      }
    }
    assert bucket[..|bucket|] == bucket;
    return None;
  }

  method CountIn(bucket: Bucket, fp: nat) returns (count: nat)
    ensures count == Held(bucket, fp)
  {
    count := 0;
    for s := 0 to |bucket|
      invariant count == Held(bucket[..s], fp)
    {
      assert bucket[..s + 1] == bucket[..s] + [bucket[s]];
      if bucket[s] == fp {
        count := count + 1;
      }
    }
    assert bucket[..|bucket|] == bucket;
  }

  lemma {:induction false} FoundInPair(buckets: seq<Bucket>, alt: Mover, n: nat, size: nat, stored: multiset<(nat, nat)>, fp: nat, i: nat)
    requires Holds(buckets, alt, n, size, stored) && fp >= 1 && i < n
    ensures alt(i, fp) < n && Copies(buckets, alt, fp, i) == stored[Home(alt, fp, i)]
    ensures Home(alt, fp, i) in stored <==> fp in buckets[i] || fp in buckets[alt(i, fp)]
  {
    assert Copies(buckets, alt, fp, i) == stored[Home(alt, fp, i)];
  }

  lemma {:induction false} WithEmptyHand(buckets: seq<Bucket>, alt: Mover, n: nat, size: nat, stored: multiset<(nat, nat)>, at: nat)
    requires Holds(buckets, alt, n, size, stored)
    ensures HoldsWith(buckets, alt, n, size, stored, 0, at)
  {
  }

  lemma {:induction false} MovesBack(alt: Mover, n: nat)
    requires n > 0 && PowerOfTwo(n) && forall i: nat, fp: nat :: alt(i, fp) == Alternate(n, i, fp)
    ensures Moves(alt, n)
  {
    var k: nat :| n == Pow2(k);
    forall i, fp | 0 <= i < n && 0 <= fp ensures alt(i, fp) < n && alt(alt(i, fp), fp) == i {
      ModBelow(Xor(i, fp * MULTIPLIER), n);
      FlipUndoes(k, i, fp * MULTIPLIER);
    }
  }

  lemma {:induction false} EmptyHolds(buckets: seq<Bucket>, alt: Mover, n: nat, size: nat)
    requires Grid(buckets, n, size) && Moves(alt, n)
    requires forall i, s | 0 <= i < n && 0 <= s < size :: buckets[i][s] == 0
    ensures Holds(buckets, alt, n, size, multiset{})
  {
    forall fp: nat, i: nat | 1 <= fp && i < n ensures alt(i, fp) < n && Copies(buckets, alt, fp, i) == 0 {
      assert fp !in buckets[i] && fp !in buckets[alt(i, fp)];
    }
  }

  // ----- without a power of two -----

  /** What a lookup of the fingerprint from bucket `i` sees. */
  predicate Sees(buckets: seq<Bucket>, alt: Mover, fp: nat, i: nat)
    requires i < |buckets| && alt(i, fp) < |buckets|
  {
    fp in buckets[i] || fp in buckets[alt(i, fp)]
  }

  /** The first slot of bucket `at` that holds `was` now holds `fp`, and nothing else has changed. */
  ghost predicate Rewrites(before: seq<Bucket>, after: seq<Bucket>, at: nat, was: nat, fp: nat) {
    && at < |before| && |after| == |before| && (forall i | 0 <= i < |before| && i != at :: after[i] == before[i])
    && exists s | 0 <= s < |before[at]| ::
         before[at][s] == was && was !in before[at][..s] && after[at] == before[at][..s] + [fp] + before[at][s + 1..]
  }

  lemma {:induction false} PutRewrites(before: seq<Bucket>, at: nat, s: nat, fp: nat)
    requires at < |before| && s < |before[at]| && before[at][s] !in before[at][..s]
    ensures Rewrites(before, Put(before, at, s, fp), at, before[at][s], fp)
  {
    assert Put(before, at, s, fp)[at] == before[at][..s] + [fp] + before[at][s + 1..];
  }

  /** `fp` goes into the first empty slot of bucket `at`. */
  ghost predicate Fills(before: seq<Bucket>, after: seq<Bucket>, at: nat, fp: nat) {
    Rewrites(before, after, at, 0, fp)
  }

  /** An insert without a kick: into the first bucket, or, if that is full, into the other. */
  ghost predicate PutsDown(before: seq<Bucket>, after: seq<Bucket>, alt: Mover, fp: nat, i: nat) {
    i < |before| && if 0 in before[i] then Fills(before, after, i, fp) else Fills(before, after, alt(i, fp), fp)
  }

  /** One round of a kick chain that ends it: `victim` takes the place of a resident, which finds an empty slot. */
  ghost predicate KicksOut(before: seq<Bucket>, after: seq<Bucket>, alt: Mover, victim: nat, at: nat, slot: nat) {
    && at < |before| && slot < |before[at]|
    && var out := before[at][slot];
       Fills(Put(before, at, slot, victim), after, alt(at, out), out)
  }

  /**
   The only copy of an item that looks in `i` and its alternate sits in the alternate and is kicked
   out.  It is still seen exactly when the kick takes it back to `i` or leaves it where it is.
   */
  lemma {:induction false} KickedIsSeenIff(before: seq<Bucket>, after: seq<Bucket>, alt: Mover, fp: nat, i: nat, slot: nat, victim: nat)
    requires i < |before| && alt(i, fp) < |before| && fp >= 1 && victim != fp && (i != alt(i, fp) ==> fp !in before[i])
    requires slot < |before[alt(i, fp)]| && before[alt(i, fp)][slot] == fp && Held(before[alt(i, fp)], fp) == 1
    requires KicksOut(before, after, alt, victim, alt(i, fp), slot)
    ensures |after| == |before|
    ensures Sees(after, alt, fp, i) <==> alt(alt(i, fp), fp) == i || alt(alt(i, fp), fp) == alt(i, fp)
  {
    var at := alt(i, fp);
    var there := alt(at, fp);
    var mid := Put(before, at, slot, victim);
    SwapInBucket(before[at], slot, victim, fp);
    assert fp !in mid[at];
    var s :| 0 <= s < |mid[there]| && mid[there][s] == 0 && after[there] == mid[there][..s] + [fp] + mid[there][s + 1..];
    assert after[there][s] == fp;
  }

  /** Where two kinds of fingerprints, such as 1 and 9, go in a layer of three buckets. */
  lemma {:induction false} MovesOfThree(alt: Mover, f: nat, g: nat)
    requires (forall i: nat, fp: nat :: alt(i, fp) == Alternate(3, i, fp)) && f % 12 == 1 && g % 3 == 0
    ensures alt(2, f) == 0 && alt(0, f) == 1 && alt(0, g) == 0
  {
    ThreeBucketsStray(f);
    FirstOfThreeStays(g);
  }

  lemma {:induction false} Filled(before: seq<Bucket>, at: nat, s: nat, fp: nat, bucket: Bucket) returns (after: seq<Bucket>)
    requires at < |before| && s < |before[at]| && before[at][s] == 0 && 0 !in before[at][..s] && bucket == before[at][s := fp]
    ensures after == before[at := bucket] && Fills(before, after, at, fp)
  {
    after := Put(before, at, s, fp);
    PutRewrites(before, at, s, fp);
  }

  ghost predicate Row(buckets: seq<Bucket>, a: Bucket, b: Bucket, c: Bucket) {
    |buckets| == 3 && buckets[0] == a && buckets[1] == b && buckets[2] == c
  }

  const Empty: Bucket := [0, 0, 0]

  lemma {:induction false} FillThird(alt: Mover, s0: seq<Bucket>) returns (s1: seq<Bucket>, s2: seq<Bucket>, s3: seq<Bucket>)
    requires Row(s0, Empty, Empty, Empty)
    ensures PutsDown(s0, s1, alt, 2, 2) && PutsDown(s1, s2, alt, 3, 2) && PutsDown(s2, s3, alt, 4, 2)
    ensures Row(s3, Empty, Empty, [2, 3, 4])
  {
    s1 := Filled(s0, 2, 0, 2, [2, 0, 0]);
    s2 := Filled(s1, 2, 1, 3, [2, 3, 0]);
    s3 := Filled(s2, 2, 2, 4, [2, 3, 4]);
  }

  lemma {:induction false} FillFirst(alt: Mover, s3: seq<Bucket>) returns (s4: seq<Bucket>, s5: seq<Bucket>, s6: seq<Bucket>)
    requires Row(s3, Empty, Empty, [2, 3, 4]) && alt(2, 1) == 0
    ensures PutsDown(s3, s4, alt, 1, 2) && PutsDown(s4, s5, alt, 5, 0) && PutsDown(s5, s6, alt, 6, 0)
    ensures Row(s6, [1, 5, 6], Empty, [2, 3, 4])
  {
    s4 := Filled(s3, 0, 0, 1, [1, 0, 0]);
    s5 := Filled(s4, 0, 1, 5, [1, 5, 0]);
    s6 := Filled(s5, 0, 2, 6, [1, 5, 6]);
  }

  lemma {:induction false} KickFirst(alt: Mover, s6: seq<Bucket>) returns (after: seq<Bucket>)
    requires Row(s6, [1, 5, 6], Empty, [2, 3, 4]) && alt(0, 1) == 1
    ensures KicksOut(s6, after, alt, 9, 0, 0) && Row(after, [9, 5, 6], [1, 0, 0], [2, 3, 4])
    ensures alt(2, 1) == 0 ==> Sees(s6, alt, 1, 2) && !Sees(after, alt, 1, 2)
  {
    var mid := Put(s6, 0, 0, 9);
    after := Filled(mid, 1, 0, 1, [1, 0, 0]);
  }

  /**
   In a layer of three buckets (`MovesOfThree`): inserts of 2, 3, 4 and 1 from bucket 2 and of 5 and 6
   from bucket 0, each successful, and then of 9 from bucket 0, which is both its buckets and full.  It
   kicks 1 out of its second bucket: 1 is still stored, and no lookup finds it.
   */
  lemma {:induction false} KickLosesItem(alt: Mover, s0: seq<Bucket>)
      returns (s1: seq<Bucket>, s2: seq<Bucket>, s3: seq<Bucket>, s4: seq<Bucket>, s5: seq<Bucket>, s6: seq<Bucket>, s7: seq<Bucket>)
    requires alt(2, 1) == 0 && alt(0, 1) == 1 && alt(0, 9) == 0 && Row(s0, Empty, Empty, Empty)
    ensures PutsDown(s0, s1, alt, 2, 2) && PutsDown(s1, s2, alt, 3, 2) && PutsDown(s2, s3, alt, 4, 2)
    ensures PutsDown(s3, s4, alt, 1, 2) && PutsDown(s4, s5, alt, 5, 0) && PutsDown(s5, s6, alt, 6, 0)
    ensures Row(s6, [1, 5, 6], Empty, [2, 3, 4]) && Sees(s6, alt, 1, 2) && KicksOut(s6, s7, alt, 9, 0, 0)
    ensures Row(s7, [9, 5, 6], [1, 0, 0], [2, 3, 4]) && !Sees(s7, alt, 1, 2)
  {
    s1, s2, s3 := FillThird(alt, s0);
    s4, s5, s6 := FillFirst(alt, s3);
    s7 := KickFirst(alt, s6);
  }

  // ----- the kick chain -----

  /** The buckets before a round, with the fingerprint in the hand and the bucket it is to go to. */
  datatype Round = Round(buckets: seq<Bucket>, held: nat, at: nat)

  /**
   Every round puts the hand into some slot of its bucket, takes up what was there and goes on to the
   other bucket of that, which is full.
   */
  ghost predicate Chain(rounds: seq<Round>, alt: Mover) {
    forall k: nat | k + 1 < |rounds| :: Swaps(rounds[k], rounds[k + 1], alt)
  }

  ghost predicate Swaps(r: Round, r': Round, alt: Mover) {
    && r.at < |r.buckets| && (exists slot: nat :: slot < |r.buckets[r.at]| && SwapsAt(r, r', slot))
    && r'.at == alt(r.at, r'.held) && r'.at < |r'.buckets| && 0 !in r'.buckets[r'.at]
  }

  ghost predicate SwapsAt(r: Round, r': Round, slot: nat)
    requires r.at < |r.buckets| && slot < |r.buckets[r.at]|
  {
    r'.buckets == Put(r.buckets, r.at, slot, r.held) && r'.held == r.buckets[r.at][slot]
  }

  /**
   A whole insert.  With room in the first bucket, or else in the second, no resident moves.  With none
   a chain of rounds starts at either bucket and ends with a resident that finds room, or with
   `most` rounds done and a resident left over.
   */
  ghost predicate Inserts(before: seq<Bucket>, after: seq<Bucket>, alt: Mover, fp: nat, i: nat, most: nat, rounds: seq<Round>, ok: bool) {
    && i < |before| && alt(i, fp) < |before|
    && if 0 in before[i] || 0 in before[alt(i, fp)] then ok && PutsDown(before, after, alt, fp, i)
       else
         && rounds != [] && rounds[0].buckets == before && rounds[0].held == fp && rounds[0].at in {i, alt(i, fp)}
         && Chain(rounds, alt) && |rounds| <= most + 1
         && if ok then |rounds| <= most && LastKick(rounds[|rounds| - 1], after, alt)
            else |rounds| == most + 1 && after == rounds[most].buckets
  }

  ghost predicate LastKick(r: Round, after: seq<Bucket>, alt: Mover) {
    exists slot: nat :: KicksOut(r.buckets, after, alt, r.held, r.at, slot)
  }

  lemma {:induction false} ChainGrows(rounds: seq<Round>, next: Round, alt: Mover)
    requires Chain(rounds, alt) && rounds != [] && Swaps(rounds[|rounds| - 1], next, alt)
    ensures Chain(rounds + [next], alt)
  {
  }

  class CuckooLayer {
    var buckets: seq<Bucket>
    const alt: Mover
    const numBuckets: nat
    const bucketSize: nat
    const maxIterations: nat
    ghost var stored: multiset<(nat, nat)>

    ghost predicate Valid()
      reads this
    {
      bucketSize >= 1 && Holds(buckets, alt, numBuckets, bucketSize, stored)
    }

    constructor (capacity: nat, bucketSize: nat, maxIterations: nat)
      requires bucketSize >= 1
      ensures this.bucketSize == bucketSize && this.maxIterations == maxIterations && numBuckets >= 1
      ensures exists k: nat :: && k >= 1 && capacity <= Pow2(k) && (k > 1 ==> Pow2(k - 1) < capacity)
                               && (numBuckets - 1) * bucketSize < Pow2(k) <= numBuckets * bucketSize
      ensures forall i: nat, fp: nat :: alt(i, fp) == Xor(i, fp * 0x5bd1e995) % numBuckets
      ensures Grid(buckets, numBuckets, bucketSize) && forall i, s | 0 <= i < numBuckets && 0 <= s < bucketSize :: buckets[i][s] == 0
      ensures PowerOfTwo(numBuckets) ==> Valid() && stored == multiset{}
    {
      var n := NumBuckets(CapacityLog(capacity), bucketSize);
      FewestBuckets(CapacityLog(capacity), bucketSize);
      numBuckets, this.bucketSize, this.maxIterations := n, bucketSize, maxIterations;
      var move: Mover := (i, fp) => Alternate(n, i, fp);
      alt := move;
      buckets := seq(n, _ => seq(bucketSize, _ => 0));
      stored := multiset{};
      new;
      if PowerOfTwo(numBuckets) {
        MovesBack(alt, numBuckets);
        EmptyHolds(buckets, alt, numBuckets, bucketSize);
      }
    }

    method Contains(fp: nat, i1: nat) returns (found: bool)
      requires Valid() && fp >= 1 && i1 < numBuckets
      ensures found <==> Home(alt, fp, i1) in stored
      ensures found <==> Sees(buckets, alt, fp, i1)
    {
      FoundInPair(buckets, alt, numBuckets, bucketSize, stored, fp, i1);
      var first := FindSlot(buckets[i1], fp);
      if first.Some? {
        return true;
      }
      var second := FindSlot(buckets[alt(i1, fp)], fp);
      return second.Some?;
    }

    /** When both buckets are the same one its copies are counted twice. */
    method Count(fp: nat, i1: nat) returns (count: nat)
      requires Valid() && fp >= 1 && i1 < numBuckets
      ensures count == stored[Home(alt, fp, i1)] * if alt(i1, fp) == i1 then 2 else 1
    {
      FoundInPair(buckets, alt, numBuckets, bucketSize, stored, fp, i1);
      var first := CountIn(buckets[i1], fp);
      var second := CountIn(buckets[alt(i1, fp)], fp);
      return first + second;
    }

    /** Put the copy in the hand into an empty slot of its bucket, if there is one. */
    method TryPlace(held: nat, at: nat, ghost total: multiset<(nat, nat)>) returns (ok: bool)
      requires bucketSize >= 1 && HoldsWith(buckets, alt, numBuckets, bucketSize, total, held, at) && at < numBuckets
      modifies this`buckets
      ensures ok ==> Holds(buckets, alt, numBuckets, bucketSize, total) && Fills(old(buckets), buckets, at, held)
      ensures !ok ==> buckets == old(buckets) && 0 !in buckets[at]
    {
      var slot := FindSlot(buckets[at], 0);
      if slot.None? {
        return false;
      }
      Exchange(buckets, alt, numBuckets, bucketSize, total, held, at, slot.value);
      PutRewrites(buckets, at, slot.value, held);
      buckets := Put(buckets, at, slot.value, held);
      EmptyHand(buckets, alt, numBuckets, bucketSize, total, at);
      return true;
    }

    /** A failed insert leaves out one copy, and not always the new one. */
    method Insert(fp: nat, i1: nat) returns (ok: bool, ghost lost: (nat, nat), ghost rounds: seq<Round>)
      requires Valid() && fp >= 1 && i1 < numBuckets
      modifies this`buckets, this`stored
      ensures Valid() && Inserts(old(buckets), buckets, alt, fp, i1, maxIterations, rounds, ok)
      ensures ok ==> stored == old(stored) + multiset{Home(alt, fp, i1)}
      ensures !ok ==> lost == Home(alt, rounds[maxIterations].held, rounds[maxIterations].at)
      ensures !ok ==> lost in old(stored) + multiset{Home(alt, fp, i1)}
      ensures !ok ==> stored == old(stored) + multiset{Home(alt, fp, i1)} - multiset{lost}
    {
      lost, rounds := (0, 0), [];
      ghost var total := stored + multiset{Home(alt, fp, i1)};
      TakeUp(buckets, alt, numBuckets, bucketSize, stored, fp, i1);
      var i2 := alt(i1, fp);
      Carry(buckets, alt, numBuckets, bucketSize, total, fp, i1);
      FoundInPair(buckets, alt, numBuckets, bucketSize, stored, fp, i1);
      ok := TryPlace(fp, i1, total);
      if !ok {
        ok := TryPlace(fp, i2, total);
      }
      if ok {
        stored := total;
        return;
      }
      var idx: nat;
      if * {
        idx := i1;
      } else {
        idx := i2;
      }
      ok, lost, rounds := KickAround(fp, idx, total);
    }

    /** The chain of kicks that starts with `fp` in the hand at bucket `start`. */
    method KickAround(fp: nat, start: nat, ghost total: multiset<(nat, nat)>)
      returns (ok: bool, ghost lost: (nat, nat), ghost rounds: seq<Round>)
      requires bucketSize >= 1 && start < numBuckets && fp >= 1
      requires HoldsWith(buckets, alt, numBuckets, bucketSize, total, fp, start) && 0 !in buckets[start]
      modifies this`buckets, this`stored
      ensures Valid() && rounds != [] && rounds[0] == Round(old(buckets), fp, start) && Chain(rounds, alt)
      ensures ok ==> |rounds| <= maxIterations && LastKick(rounds[|rounds| - 1], buckets, alt)
      ensures ok ==> stored == total
      ensures !ok ==> |rounds| == maxIterations + 1 && buckets == rounds[maxIterations].buckets
      ensures !ok ==> lost == Home(alt, rounds[maxIterations].held, rounds[maxIterations].at)
      ensures !ok ==> lost in total && stored == total - multiset{lost}
    {
      var idx: nat, victim: nat := start, fp;
      ok, lost, rounds := false, (0, 0), [Round(buckets, fp, start)];
      for n := 0 to maxIterations
        invariant HoldsWith(buckets, alt, numBuckets, bucketSize, total, victim, idx)
        invariant idx < numBuckets && victim >= 1 && 0 !in buckets[idx] && !ok
        invariant |rounds| == n + 1 && rounds[0] == Round(old(buckets), fp, start) && Chain(rounds, alt)
        invariant rounds[n] == Round(buckets, victim, idx)
      {
        var slot :| 0 <= slot < bucketSize;
        ok, idx, victim := Kick(idx, slot, victim, total);
        if ok {
          stored := total;
          return;
        }
        ghost var next := Round(buckets, victim, idx);
        assert SwapsAt(rounds[n], next, slot);
        ChainGrows(rounds, next, alt);
        rounds := rounds + [next];
      }
      Discard(buckets, alt, numBuckets, bucketSize, total, victim, idx);
      lost := Home(alt, victim, idx);
      stored := total - multiset{lost};
    }

    /** One round of the kick chain. */
    method Kick(idx: nat, slot: nat, victim: nat, ghost total: multiset<(nat, nat)>)
      returns (ok: bool, idx': nat, victim': nat)
      requires bucketSize >= 1 && idx < numBuckets && slot < bucketSize && victim >= 1
      requires HoldsWith(buckets, alt, numBuckets, bucketSize, total, victim, idx) && 0 !in buckets[idx]
      modifies this`buckets
      ensures ok ==> Holds(buckets, alt, numBuckets, bucketSize, total) && KicksOut(old(buckets), buckets, alt, victim, idx, slot)
      ensures !ok ==> buckets == Put(old(buckets), idx, slot, victim) && victim' == old(buckets)[idx][slot] && idx' == alt(idx, victim')
      ensures !ok ==> idx' < numBuckets && victim' >= 1 && |buckets| == numBuckets && 0 !in buckets[idx']
      ensures !ok ==> HoldsWith(buckets, alt, numBuckets, bucketSize, total, victim', idx')
    {
      Exchange(buckets, alt, numBuckets, bucketSize, total, victim, idx, slot);
      victim' := buckets[idx][slot];
      assert victim' in buckets[idx];
      buckets := Put(buckets, idx, slot, victim);
      Carry(buckets, alt, numBuckets, bucketSize, total, victim', idx);
      idx' := alt(idx, victim');
      ok := TryPlace(victim', idx', total);
    }

    method Delete(fp: nat, i1: nat) returns (done: bool)
      requires Valid() && fp >= 1 && i1 < numBuckets
      modifies this`buckets, this`stored
      ensures Valid() && done == (Home(alt, fp, i1) in old(stored))
      ensures stored == old(stored) - multiset{Home(alt, fp, i1)}
      ensures alt(i1, fp) < numBuckets && (done <==> fp in old(buckets)[i1] || fp in old(buckets)[alt(i1, fp)])
      ensures done ==> Rewrites(old(buckets), buckets, if fp in old(buckets)[i1] then i1 else alt(i1, fp), fp, 0)
      ensures !done ==> buckets == old(buckets)
    {
      FoundInPair(buckets, alt, numBuckets, bucketSize, stored, fp, i1);
      HomeOfPair(alt, numBuckets, fp, i1, alt(i1, fp));
      var at := i1;
      var slot := FindSlot(buckets[i1], fp);
      if slot.None? {
        at := alt(i1, fp);
        slot := FindSlot(buckets[at], fp);
      }
      if slot.None? {
        return false;
      }
      WithEmptyHand(buckets, alt, numBuckets, bucketSize, stored, at);
      Exchange(buckets, alt, numBuckets, bucketSize, stored, 0, at, slot.value);
      PutRewrites(buckets, at, slot.value, 0);
      buckets := Put(buckets, at, slot.value, 0);
      Discard(buckets, alt, numBuckets, bucketSize, stored, fp, at);
      stored := stored - multiset{Home(alt, fp, at)};
      return true;
    }
  }
}

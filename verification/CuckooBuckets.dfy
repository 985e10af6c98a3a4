/**
 The two buckets of a fingerprint in the cuckoo filter layer of senko-core/src/prob.rs: exclusive
 or with a multiple of the fingerprint, cut to the number of buckets.
 */
module CuckooBuckets {
  import opened Common

  // ----- exclusive or -----

  function Xor(a: nat, b: nat): nat {
    if a == 0 && b == 0 then 0
    else (if a % 2 == b % 2 then 0 else 1) + 2 * Xor(a / 2, b / 2)
  }

  lemma {:induction false} XorHalves(a: nat, b: nat)
    ensures Xor(a, b) % 2 == (if a % 2 == b % 2 then 0 else 1) && Xor(a, b) / 2 == Xor(a / 2, b / 2)
  {
  }

  lemma {:induction false} XorUndoes(a: nat, b: nat)
    ensures Xor(Xor(a, b), b) == a
    decreases a + b
  {
    if a != 0 || b != 0 {
      var x := Xor(a, b);
      XorHalves(a, b);
      XorHalves(x, b);
      XorUndoes(a / 2, b / 2);
      SameHalves(Xor(x, b), a);
    }
  }

  lemma {:induction false} SameHalves(a: nat, b: nat)
    requires a % 2 == b % 2 && a / 2 == b / 2
    ensures a == b
  {
  }

  function Pow2(n: nat): (r: nat)
    ensures r >= 1
  {
    if n == 0 then 1 else 2 * Pow2(n - 1)
  }

  ghost predicate PowerOfTwo(n: nat) {
    exists k: nat :: n == Pow2(k)
  }

  lemma {:induction false} HalfMod(a: nat, m: nat)
    requires m > 0
    ensures a % (2 * m) == a % 2 + 2 * (a / 2 % m)
  {
    var q, r := a / 2 / m, a / 2 % m;
    assert a / 2 == q * m + r;
    assert a == 2 * (a / 2) + a % 2;
    assert 2 * (q * m) == q * (2 * m);
    assert a == q * (2 * m) + (2 * r + a % 2);
    ModOf(a, 2 * m, q, 2 * r + a % 2);
  }

  lemma {:induction false} MulBound(d: int, m: int)
    requires m > 0
    ensures d >= 1 ==> d * m >= m
    ensures d <= -1 ==> d * m <= -m
  {
    if d >= 1 {
      assert d * m == m + (d - 1) * m;
    }
    if d <= -1 {
      assert d * m == -m + (d + 1) * m;
      assert (-d - 1) * m >= 0;
    }
  }

  lemma {:induction false} ModOf(a: nat, m: nat, q: nat, r: nat)
    requires m > 0 && r < m && a == q * m + r
    ensures a % m == r
  {
    var d := a / m - q;
    assert a == (a / m) * m + a % m;
    assert (a / m) * m == q * m + d * m;
    assert d * m == r - a % m;
    MulBound(d, m);
  }

  /** Cutting to the low bits commutes with exclusive or. */
  lemma {:induction false} XorLowBits(a: nat, b: nat, k: nat)
    ensures Xor(a, b) % Pow2(k) == Xor(a % Pow2(k), b % Pow2(k))
    decreases k
  {
    if k > 0 {
      var m := Pow2(k - 1);
      HalfMod(a, m);
      HalfMod(b, m);
      HalfMod(Xor(a, b), m);
      XorHalves(a, b);
      XorLowBits(a / 2, b / 2, k - 1);
      XorHalves(a % Pow2(k), b % Pow2(k));
      Halves(a, m);
      Halves(b, m);
    }
  }

  lemma {:induction false} Halves(a: nat, m: nat)
    requires m > 0 && a % (2 * m) == a % 2 + 2 * (a / 2 % m)
    ensures a % (2 * m) / 2 == a / 2 % m && a % (2 * m) % 2 == a % 2
  {
  }

  // ----- the two buckets of a fingerprint -----

  /** The bucket the fingerprint can move to. */
  function Flip(n: nat, i: nat, spread: nat): nat
    requires n > 0
  {
    Xor(i, spread) % n
  }

  const MULTIPLIER: nat := 0x5bd1e995

  function Alternate(n: nat, i: nat, fp: nat): nat
    requires n > 0
  {
    Flip(n, i, fp * MULTIPLIER)
  }

  lemma {:induction false} FlipStep(k: nat, i: nat, spread: nat)
    requires i < Pow2(k)
    ensures Flip(Pow2(k), i, spread) == Xor(i, spread % Pow2(k)) && Flip(Pow2(k), i, spread) < Pow2(k)
  {
    XorLowBits(i, spread, k);
    ModSmall(i, Pow2(k));
    ModBelow(Xor(i, spread), Pow2(k));
  }

  lemma {:induction false} ModSmall(a: nat, m: nat)
    requires a < m
    ensures a % m == a
  {
  }

  lemma {:induction false} ModBelow(a: nat, m: nat)
    requires m > 0
    ensures a % m < m
  {
  }

  /** Moving twice comes back, when the number of buckets is a power of two. */
  lemma {:induction false} FlipUndoes(k: nat, i: nat, spread: nat)
    requires i < Pow2(k)
    ensures Flip(Pow2(k), Flip(Pow2(k), i, spread), spread) == i
  {
    FlipStep(k, i, spread);
    FlipStep(k, Flip(Pow2(k), i, spread), spread);
    XorUndoes(i, spread % Pow2(k));
  }

  lemma {:induction false} Bracket(n: nat, k: nat) returns (j: nat)
    requires n > 0 && !PowerOfTwo(n) && Pow2(k) <= n
    ensures Pow2(j) < n < Pow2(j + 1)
    decreases n - Pow2(k)
  {
    if n < Pow2(k + 1) {
      j := k;
    } else {
      j := Bracket(n, k + 1);
    }
  }

  /** Capacities are rounded up to a power of two, the least of them two. */
  function CapacityLog(capacity: nat): (k: nat)
    ensures k >= 1 && capacity <= Pow2(k) && (k > 1 ==> Pow2(k - 1) < capacity)
  {
    if capacity <= 2 then 1 else
      var half := CapacityLog((capacity + 1) / 2);
      half + 1
  }

  /** Bucket counts: as many as hold the capacity. */
  function NumBuckets(capacityLog: nat, bucketSize: nat): nat
    requires bucketSize > 0
  {
    (Pow2(capacityLog) + bucketSize - 1) / bucketSize
  }

  lemma {:induction false} DivOf(a: nat, m: nat, q: nat, r: nat)
    requires m > 0 && r < m && a == q * m + r
    ensures a / m == q
  {
    ModOf(a, m, q, r);
    var d := a / m - q;
    assert a == (a / m) * m + a % m;
    assert (a / m) * m == q * m + d * m;
    assert d * m == 0;
    MulBound(d, m);
  }

  /** As few buckets as hold the capacity. */
  lemma {:induction false} FewestBuckets(capacityLog: nat, bucketSize: nat)
    requires bucketSize > 0
    ensures var n := NumBuckets(capacityLog, bucketSize);
            n >= 1 && (n - 1) * bucketSize < Pow2(capacityLog) <= n * bucketSize
  {
    var p, n := Pow2(capacityLog) + bucketSize - 1, NumBuckets(capacityLog, bucketSize);
    assert p == n * bucketSize + p % bucketSize;
    assert (n - 1) * bucketSize == n * bucketSize - bucketSize;
    assert n == 0 ==> n * bucketSize == 0;
  }

  lemma {:induction false} Pow2Sum(a: nat, b: nat)
    ensures Pow2(a + b) == Pow2(a) * Pow2(b)
    decreases a
  {
    if a > 0 {
      Pow2Sum(a - 1, b);
      assert 2 * (Pow2(a - 1) * Pow2(b)) == (2 * Pow2(a - 1)) * Pow2(b);
    }
  }

  lemma {:induction false} Pow2Grows(m: nat, n: nat)
    requires m <= n
    ensures Pow2(m) <= Pow2(n)
    decreases n - m
  {
    if m < n {
      Pow2Grows(m, n - 1);
    }
  }

  lemma {:induction false} IsPower(n: nat, k: nat)
    requires n == Pow2(k)
    ensures PowerOfTwo(n)
  {
  }

  lemma {:induction false} CeilExact(p: nat, q: nat, b: nat)
    requires b > 0 && p == q * b
    ensures (p + b - 1) / b == q
  {
    DivOf(p + b - 1, b, q, b - 1);
  }

  lemma {:induction false} CeilSmall(p: nat, b: nat)
    requires 1 <= p <= b
    ensures (p + b - 1) / b == 1
  {
    DivOf(p + b - 1, b, 1, p - 1);
  }

  /** With a power-of-two bucket size the bucket count is a power of two. */
  lemma {:induction false} BucketCountIsPower(m: nat, j: nat, bucketSize: nat)
    requires bucketSize == Pow2(j)
    ensures PowerOfTwo(NumBuckets(m, bucketSize))
  {
    var capacity := Pow2(m);
    if j <= m {
      Pow2Sum(m - j, j);
      CeilExact(capacity, Pow2(m - j), bucketSize);
      IsPower(NumBuckets(m, bucketSize), m - j);
    } else {
      Pow2Grows(m, j);
      CeilSmall(capacity, bucketSize);
      IsPower(NumBuckets(m, bucketSize), 0);
    }
  }

  lemma {:induction false} XorZero(b: nat)
    ensures Xor(0, b) == b
    decreases b
  {
    if b > 0 {
      XorZero(b / 2);
    }
  }

  lemma {:induction false} XorTwo(b: nat)
    requires b % 4 == 1
    ensures Xor(2, b) == b + 2
  {
    XorHalves(2, b);
    XorHalves(1, b / 2);
    XorZero(b / 2 / 2);
  }

  lemma {:induction false} FlipOfThree(spread: nat)
    requires spread % 12 == 1
    ensures Flip(3, 2, spread) == 0 && Flip(3, 0, spread) == 1
  {
    ModsOfTwelfth(spread);
    XorTwo(spread);
    XorZero(spread);
  }

  lemma {:induction false} ModsOfTwelfth(spread: nat)
    requires spread % 12 == 1
    ensures spread % 4 == 1 && spread % 3 == 1 && (spread + 2) % 3 == 0
  {
    var q := spread / 12;
    ModOf(spread, 4, 3 * q, 1);
    ModOf(spread, 3, 4 * q, 1);
    ModOf(spread + 2, 3, 4 * q + 1, 0);
  }

  lemma {:induction false} SpreadOfTwelfth(fp: nat)
    requires fp % 12 == 1
    ensures fp * MULTIPLIER % 12 == 1
  {
    assert fp * MULTIPLIER == 12 * (fp / 12 * 0x5bd1e995) + 0x5bd1e995;
  }

  /**
   Bucket size three and room for eight give three buckets.  Every twelfth fingerprint then
   moves from bucket 2 to bucket 0 and on to bucket 1, never back.
   */
  lemma {:induction false} ThreeBucketsStray(fp: nat)
    requires fp % 12 == 1
    ensures Alternate(3, 2, fp) == 0 && Alternate(3, 0, fp) == 1
  {
    SpreadOfTwelfth(fp);
    FlipOfThree(fp * MULTIPLIER);
  }

  /** Every third fingerprint has bucket 0 alone. */
  lemma {:induction false} FirstOfThreeStays(fp: nat)
    requires fp % 3 == 0
    ensures Alternate(3, 0, fp) == 0
  {
    XorZero(fp * MULTIPLIER);
    ModOf(fp * MULTIPLIER, 3, fp / 3 * MULTIPLIER, 0);
  }

  lemma {:induction false} EightByThree()
    ensures NumBuckets(3, 3) == 3
  {
    assert Pow2(3) == 8;
  }

  // ----- when moving twice comes back -----

  lemma {:induction false} XorZeroRight(a: nat)
    ensures Xor(a, 0) == a
    decreases a
  {
    if a > 0 {
      XorZeroRight(a / 2);
    }
  }

  lemma {:induction false} XorSelf(a: nat)
    ensures Xor(a, a) == 0
    decreases a
  {
    if a > 0 {
      XorSelf(a / 2);
    }
  }

  /** `h` shifted left by `k` bits. */
  function Shift(h: nat, k: nat): nat {
    if k == 0 then h else 2 * Shift(h, k - 1)
  }

  lemma {:induction false} ShiftIs(h: nat, k: nat)
    ensures Shift(h, k) == h * Pow2(k)
    decreases k
  {
    if k > 0 {
      ShiftIs(h, k - 1);
      Twice(h, Pow2(k - 1));
    }
  }

  lemma {:induction false} Twice(h: nat, m: nat)
    ensures h * (2 * m) == 2 * (h * m)
  {
  }

  lemma {:induction false} XorFrom(a: nat, b: nat, a': nat, b': nat, r: nat, u: nat)
    requires a == 2 * a' + r && b == 2 * b' + u && r < 2 && u < 2
    ensures Xor(a, b) == 2 * Xor(a', b') + if r == u then 0 else 1
  {
  }

  /** One more low bit: `x`, `y`, `z`, `l` and `s` with all bits, and without the last. */
  lemma {:induction false} DoubledBlocks(x: nat, y: nat, z: nat, l: nat, s: nat, x': nat, y': nat, z': nat, l': nat, s': nat,
                                         r: nat, u: nat)
    requires x == 2 * x' && y == 2 * y' && z == 2 * z' && l == 2 * l' + r && s == 2 * s' + u && r < 2 && u < 2
    requires Xor(x' + l', y' + s') == z' + Xor(l', s')
    ensures Xor(x + l, y + s) == z + Xor(l, s)
  {
    XorFrom(x + l, y + s, x' + l', y' + s', r, u);
    XorFrom(l, s, l', s', r, u);
  }

  /** High and low bits do not mix. */
  lemma {:induction false} XorShifted(h: nat, l: nat, g: nat, s: nat, k: nat)
    requires l < Pow2(k) && s < Pow2(k)
    ensures Xor(Shift(h, k) + l, Shift(g, k) + s) == Shift(Xor(h, g), k) + Xor(l, s)
    decreases k
  {
    if k > 0 {
      var l', r := Halved(l);
      var s', u := Halved(s);
      XorShifted(h, l', g, s', k - 1);
      ShiftedStep(h, l, g, s, k, l', r, s', u);
    }
  }

  lemma {:induction false} ShiftedStep(h: nat, l: nat, g: nat, s: nat, k: nat, l': nat, r: nat, s': nat, u: nat)
    requires k > 0 && l == 2 * l' + r && s == 2 * s' + u && r < 2 && u < 2
    requires Xor(Shift(h, k - 1) + l', Shift(g, k - 1) + s') == Shift(Xor(h, g), k - 1) + Xor(l', s')
    ensures Xor(Shift(h, k) + l, Shift(g, k) + s) == Shift(Xor(h, g), k) + Xor(l, s)
  {
    var x := Xor(h, g);
    DoubledBlocks(Shift(h, k), Shift(g, k), Shift(x, k), l, s, Shift(h, k - 1), Shift(g, k - 1), Shift(x, k - 1), l', s', r, u);
  }

  lemma {:induction false} Halved(a: nat) returns (half: nat, bit: nat)
    ensures a == 2 * half + bit && bit < 2
  {
    half, bit := a / 2, a % 2;
  }

  lemma {:induction false} Parted(a: nat, m: nat) returns (q: nat, r: nat, top: nat)
    requires m > 0
    ensures top == q * m && a == top + r && r < m && (a % m == 0 ==> r == 0)
  {
    q, r := a / m, a % m;
    top := q * m;
  }

  lemma {:induction false} BelowBlock(l: nat, s: nat, k: nat)
    requires l < Pow2(k) && s < Pow2(k)
    ensures Xor(l, s) < Pow2(k)
    decreases k
  {
    if k > 0 {
      BelowBlock(l / 2, s / 2, k - 1);
      XorHalves(l, s);
    }
  }

  /** The same with products, which are passed by value. */
  lemma {:induction false} XorBlocks(h: nat, l: nat, g: nat, s: nat, k: nat, a: nat, b: nat, c: nat)
    requires l < Pow2(k) && s < Pow2(k) && a == h * Pow2(k) && b == g * Pow2(k) && c == Xor(h, g) * Pow2(k)
    ensures Xor(a + l, b + s) == c + Xor(l, s) && Xor(l, s) < Pow2(k)
  {
    XorShifted(h, l, g, s, k);
    ShiftIs(h, k);
    ShiftIs(g, k);
    ShiftIs(Xor(h, g), k);
    BelowBlock(l, s, k);
  }

  lemma {:induction false} XorInBlock(h: nat, l: nat, spread: nat, k: nat, top: nat)
    requires l < Pow2(k) && spread < Pow2(k) && top == h * Pow2(k)
    ensures Xor(top + l, spread) == top + Xor(l, spread) && Xor(l, spread) < Pow2(k)
  {
    XorZeroRight(h);
    XorBlocks(h, l, 0, spread, k, top, 0, top);
  }

  /** A spread with top bit `p` takes the lower half of a block to the upper one and back. */
  lemma {:induction false} XorTop(l: nat, s: nat, p: nat)
    requires Pow2(p) <= l < Pow2(p + 1) && Pow2(p) <= s < Pow2(p + 1)
    ensures Xor(l, s) < Pow2(p)
  {
    var m := Pow2(p);
    XorSelf(1);
    XorBlocks(1, l - m, 1, s - m, p, m, m, 0);
  }

  ghost predicate Adds(n: nat, spread: nat, base: nat, low: nat) {
    forall i: nat | i < n :: Xor(i, spread) == base + Xor(i, low)
  }

  /**
   Two buckets that go to the same one: the last block of buckets is cut short, so that a spread with
   top bit `p`, seen through the low bits, takes one of them past the end and round to a bucket in use.
   */
  lemma {:induction false} Collide(n: nat, spread: nat, base: nat, low: nat, p: nat, h: nat, r: nat, top: nat) returns (a: nat, b: nat)
    requires Pow2(p) <= low < Pow2(p + 1) && Adds(n, spread, base, low)
    requires n == top + r && top == h * Pow2(p + 1) >= Pow2(p + 1) && 0 < r < Pow2(p + 1)
    ensures a < n && b < n && a != b && Flip(n, a, spread) == Flip(n, b, spread)
  {
    var t := Turn(r, low, p);
    PastEnd(h, t, low, p + 1, top);
    BelowBlock(t - r, low, p + 1);
    a, b := top + Xor(t, low), Xor(t - r, low);
    CollideAt(n, spread, base, low, top, r, t);
  }

  lemma {:induction false} CollideAt(n: nat, spread: nat, base: nat, low: nat, top: nat, r: nat, t: nat)
    requires n == top + r && r <= t && Adds(n, spread, base, low)
    requires Xor(t, low) < r && Xor(t - r, low) < top && Xor(top + Xor(t, low), low) == top + t
    ensures Flip(n, top + Xor(t, low), spread) == Flip(n, Xor(t - r, low), spread)
  {
    var a, b := top + Xor(t, low), Xor(t - r, low);
    XorUndoes(t - r, low);
    assert Xor(a, spread) == base + Xor(a, low) && Xor(b, spread) == base + Xor(b, low);
    ModWraps(base + (t - r), n);
  }

  /** A place in the missing part of the last block whose partner is there. */
  lemma {:induction false} Turn(r: nat, low: nat, p: nat) returns (t: nat)
    requires 0 < r < Pow2(p + 1) && Pow2(p) <= low < Pow2(p + 1)
    ensures r <= t < Pow2(p + 1) && Xor(t, low) < r
  {
    if r <= low {
      t := low;
      XorSelf(low);
    } else {
      t := Pow2(p + 1) - 1;
      XorTop(t, low, p);
    }
  }

  lemma {:induction false} PastEnd(h: nat, t: nat, low: nat, k: nat, top: nat)
    requires t < Pow2(k) && low < Pow2(k) && top == h * Pow2(k)
    ensures Xor(top + Xor(t, low), low) == top + t
  {
    BelowBlock(t, low, k);
    XorInBlock(h, Xor(t, low), low, k, top);
    XorUndoes(t, low);
  }

  lemma {:induction false} ModWraps(x: nat, n: nat)
    requires n > 0
    ensures (x + n) % n == x % n
  {
    var q, r := x / n, x % n;
    assert x + n == (q + 1) * n + r;
    ModOf(x + n, n, q + 1, r);
  }

  const FINGERPRINTS: nat := 0x1_0000

  /** Whatever the bucket and the 16-bit fingerprint, the alternate of the alternate is the bucket. */
  ghost predicate ComesBack(n: nat)
    requires n > 0
  {
    forall i: nat, fp: nat | i < n && 1 <= fp < FINGERPRINTS :: Alternate(n, Alternate(n, i, fp), fp) == i
  }

  lemma {:induction false} NotBack(n: nat, fp: nat, a: nat, b: nat)
    requires n > 0 && 1 <= fp < FINGERPRINTS && a < n && b < n && a != b && Alternate(n, a, fp) == Alternate(n, b, fp)
    ensures !ComesBack(n)
  {
    assert Alternate(n, Alternate(n, a, fp), fp) != a || Alternate(n, Alternate(n, b, fp), fp) != b;
  }

  /** Powers of two by value. */
  lemma {:induction false} Powers()
    ensures Pow2(15) == 0x8000 && Pow2(16) == 0x1_0000 && Pow2(17) == 0x2_0000 && Pow2(18) == 0x4_0000
    ensures Pow2(30) == 0x4000_0000 && Pow2(31) == 0x8000_0000 && Pow2(32) == 0x1_0000_0000
    ensures Pow2(46) == 0x4000_0000_0000 && Pow2(47) == 0x8000_0000_0000
  {
    assert Pow2(8) == 256;
    assert Pow2(15) == 128 * Pow2(8);
    assert Pow2(18) == 8 * Pow2(15);
    Pow2Sum(15, 15);
    Pow2Sum(15, 31);
  }

  /** Some bit of the multiplier is zero and the next lower one is one, within 16 places below any bit up to 46. */
  lemma {:induction false} BitsOfMultiplier(m: nat) returns (t: nat, high: nat, low: nat)
    requires 1 <= m <= 46
    ensures 1 <= t <= m <= t + 15 && MULTIPLIER == high * Pow2(t + 1) + low && Pow2(t - 1) <= low < Pow2(t)
  {
    Powers();
    if m <= 16 {
      t, high, low := 1, 385120869, 1;
      assert Pow2(2) == 4 && Pow2(1) == 2 && Pow2(0) == 1;
    } else if m <= 32 {
      t, high, low := 17, 5876, 125333;
    } else {
      t, high, low := 31, 0, MULTIPLIER;
    }
  }

  /** A fingerprint whose spread, seen through the bits of the bucket count, has its top bit one below. */
  lemma {:induction false} StrayingFingerprint(m: nat) returns (fp: nat, high: nat, low: nat)
    requires 1 <= m <= 46
    ensures 1 <= fp < FINGERPRINTS && fp * MULTIPLIER == high * Pow2(m + 1) + low && Pow2(m - 1) <= low < Pow2(m)
  {
    var t, h, l := BitsOfMultiplier(m);
    var j := m - t;
    fp, high, low := Pow2(j), h, l * Pow2(j);
    Powers();
    Pow2Grows(j, 15);
    Pow2Sum(t + 1, j);
    Pow2Sum(t - 1, j);
    Pow2Sum(t, j);
    Distribute(fp, h, Pow2(t + 1), l, Pow2(m + 1), MULTIPLIER);
    Scaled(Pow2(t - 1), l, Pow2(t), fp);
  }

  lemma {:induction false} Distribute(f: nat, h: nat, p: nat, l: nat, q: nat, m: nat)
    requires m == h * p + l && q == p * f
    ensures f * m == h * q + l * f
  {
    assert f * (h * p + l) == f * (h * p) + f * l;
    assert f * (h * p) == h * (p * f);
  }

  lemma {:induction false} Scaled(a: nat, b: nat, c: nat, f: nat)
    requires a <= b < c && f >= 1
    ensures a * f <= b * f < c * f
  {
    assert (b - a) * f >= 0;
    MulBound(c - b, f);
    assert (c - b) * f == c * f - b * f;
  }

  lemma {:induction false} HighStays(i: nat, high: nat, low: nat, k: nat, top: nat)
    requires i < Pow2(k) && low < Pow2(k) && top == high * Pow2(k)
    ensures Xor(i, top + low) == top + Xor(i, low)
  {
    XorZero(high);
    XorBlocks(0, i, high, low, k, 0, top, top);
  }

  lemma {:induction false} SpreadAdds(n: nat, high: nat, low: nat, k: nat, top: nat)
    requires n <= Pow2(k) && low < Pow2(k) && top == high * Pow2(k)
    ensures Adds(n, top + low, top, low)
  {
    forall i: nat | i < n ensures Xor(i, top + low) == top + Xor(i, low) {
      HighStays(i, high, low, k, top);
    }
  }

  lemma {:induction false} StraysBetweenPowers(n: nat, m: nat)
    requires 1 <= m <= 46 && Pow2(m) < n < Pow2(m + 1)
    ensures !ComesBack(n)
  {
    var fp, high, low := StrayingFingerprint(m);
    var top := high * Pow2(m + 1);
    SpreadAdds(n, high, low, m + 1, top);
    var a, b := Collide(n, fp * MULTIPLIER, top, low, m - 1, 1, n - Pow2(m), Pow2(m));
    NotBack(n, fp, a, b);
  }

  lemma {:induction false} StraysAbove(n: nat)
    requires n >= Pow2(47) && n % Pow2(47) != 0
    ensures !ComesBack(n)
  {
    Powers();
    var fp := 0xffff;
    var spread := fp * MULTIPLIER;
    assert Adds(n, spread, 0, spread);
    var h, r := n / Pow2(47), n % Pow2(47);
    MulBound(h, Pow2(47));
    var a, b := Collide(n, spread, 0, spread, 46, h, r, h * Pow2(47));
    NotBack(n, fp, a, b);
  }

  /** A spread below the size of a block leaves a bucket in its block. */
  lemma {:induction false} StaysInside(n: nat, i: nat, spread: nat, k: nat)
    requires n % Pow2(k) == 0 && i < n && spread < Pow2(k)
    ensures Xor(i, spread) < n
  {
    var h, l, top := Parted(i, Pow2(k));
    var q, _, all := Parted(n, Pow2(k));
    XorInBlock(h, l, spread, k, top);
    BlockInside(h, l, q, Pow2(k), Xor(l, spread), top, all);
  }

  /** Above 2^47 buckets no spread leaves its block of 2^47 buckets. */
  lemma {:induction false} WholeBlocksComeBack(n: nat, i: nat, fp: nat)
    requires n > 0 && n % Pow2(47) == 0 && i < n && 1 <= fp < FINGERPRINTS
    ensures Alternate(n, Alternate(n, i, fp), fp) == i
  {
    var spread := fp * MULTIPLIER;
    assert spread < Pow2(47) by {
      Powers();
    }
    StaysInside(n, i, spread, 47);
    ModSmall(Xor(i, spread), n);
    XorUndoes(i, spread);
    ModSmall(i, n);
  }

  lemma {:induction false} BlockInside(h: nat, l: nat, q: nat, m: nat, x: nat, top: nat, all: nat)
    requires m > 0 && top == h * m && all == q * m && top + l < all && x < m
    ensures top + x < all
  {
    assert (q - h) * m == all - top;
    MulBound(q - h, m);
  }

  /**
   The alternate bucket is an involution for every 16-bit fingerprint exactly when the number of buckets
   is a power of two, or so large a multiple of 2^47 that no fingerprint reaches across.
   */
  lemma {:induction false} ComesBackIff(n: nat)
    requires n > 0
    ensures ComesBack(n) <==> PowerOfTwo(n) || n % Pow2(47) == 0
  {
    if PowerOfTwo(n) {
      var k: nat :| n == Pow2(k);
      forall i: nat, fp: nat | i < n && 1 <= fp < FINGERPRINTS ensures Alternate(n, Alternate(n, i, fp), fp) == i {
        FlipUndoes(k, i, fp * MULTIPLIER);
      }
    } else if n % Pow2(47) == 0 {
      forall i: nat, fp: nat | i < n && 1 <= fp < FINGERPRINTS ensures Alternate(n, Alternate(n, i, fp), fp) == i {
        WholeBlocksComeBack(n, i, fp);
      }
    } else if n >= Pow2(47) {
      StraysAbove(n);
    } else {
      assert Pow2(0) == 1 && Pow2(1) == 2;
      var m := Bracket(n, 0);
      if m >= 47 {
        Pow2Grows(47, m);
      }
      StraysBetweenPowers(n, m);
    }
  }
}

// When growth succeeds: a hash seed is lucky for some keys when no bucket gets
// more of them than it has slots.
module HashLuck {
  import opened Basics
  import opened Caps
  import opened HashSlots
  import opened HashTables

  // ---- what the attempts to grow allocate

  // The layout that an allocation for capacity c gives.
  ghost function AllocLayout(c: nat, seed: nat): Layout
    requires IsCap(c)
  {
    CapPositive(c);
    RaisedIsCap(c);
    var (c0, j) := Log2(c);
    var k := Log2Bucket(c0);
    Layout(seed, RaisedCap(c), c0, if j.None? then 0 else if k > j.value then k else j.value, k,
           if j.None? then MAX_LIMIT else Limit0(c0, RaisedCap(c)))
  }

  // With two tables, the limits up to limit0, out of 2^32, are the share of table 0 in
  // the capacity, cut to a whole number; one table gets them all.  Table 0 has room
  // for twice the square of a bucket, and a larger bucket is too large, for that or
  // for its difference plus one to fit a byte.
  lemma LayoutShares(c: nat, seed: nat)
    requires IsCap(c)
    ensures var y := AllocLayout(c, seed);
            && (Log2(c).1.None? ==> y.cap == c && y.limit0 == 0xFFFF_FFFF)
            && (Log2(c).1.Some? ==> y.limit0 * y.cap <= 0x1_0000_0000 * Pow2(y.log2Cap0) < (y.limit0 + 1) * y.cap)
            && 2 * y.log2Bucket + 1 <= y.log2Cap0 && Pow2(y.log2Bucket) < 256
            && (2 * (y.log2Bucket + 1) + 1 > y.log2Cap0 || Pow2(y.log2Bucket + 1) == 256)
  {
    hide Log2, CapOf, Pow2, RaisedCap, IsCap;
    RaisedIsCap(c);
    CapPositive(c);
    CapPositive(RaisedCap(c));
    RaisedCapIs(c);
    Pow2Values();
    Pow2Grows(Log2Bucket(Log2(c).0), 7);
    ShareOf(Log2(c).0, RaisedCap(c));
  }

  lemma ShareOf(c0: nat, cap: nat)
    requires cap > 0
    ensures Limit0(c0, cap) * cap <= 0x1_0000_0000 * Pow2(c0) < (Limit0(c0, cap) + 1) * cap
  {
    hide Pow2;
    Pow2Values();
    Pow2Sum(32, c0);
    Quotient(Pow2(32 + c0), cap);
  }

  lemma Quotient(a: nat, d: nat)
    requires d > 0
    ensures a / d * d <= a < (a / d + 1) * d
  {
    assert a == a / d * d + a % d;
  }

  // The capacity after growing j times.
  ghost function CapAt(c: nat, j: nat): nat {
    if j == 0 then c
    else
      NextUnitGrows(CapAt(c, j - 1));
      RaisedCap(NextUnit(CapAt(c, j - 1)))
  }

  // What the attempt after j others allocates.
  ghost function Attempt(c: nat, j: nat, seed: nat): (y: Layout)
    ensures y.cap == CapAt(c, j + 1)
  {
    NextUnitGrows(CapAt(c, j));
    AllocLayout(NextUnit(CapAt(c, j)), seed)
  }

  lemma {:induction false} CapAtMore(c: nat, i: nat, j: nat)
    ensures CapAt(CapAt(c, i), j) == CapAt(c, i + j)
    decreases j
  {
    hide NextUnit, RaisedCap, IsCap;
    if j > 0 {
      CapAtMore(c, i, j - 1);
    }
  }

  lemma AttemptMore(c: nat, i: nat, j: nat, seed: nat)
    ensures Attempt(CapAt(c, i), j, seed) == Attempt(c, i + j, seed)
  {
    CapAtMore(c, i, j);
  }

  lemma FirstCap(c: nat)
    ensures CapAt(c, 0) == c
  {
  }

  // ---- luck

  ghost function InBucket<K(!new)>(y: Layout, h: Digest<K>, ks: set<K>, b: nat): set<K> {
    set k | k in ks && BucketOf(y, Base(y, h, k)) == b
  }

  ghost predicate Lucky<K(!new)>(y: Layout, h: Digest<K>, ks: set<K>) {
    forall b: nat :: |InBucket(y, h, ks, b)| <= Pow2(y.log2Bucket)
  }

  lemma SmallerSet<T>(a: set<T>, b: set<T>)
    requires a <= b
    ensures |a| <= |b|
  {
    assert b == a + (b - a);
  }

  lemma FewerLucky<K(!new)>(y: Layout, h: Digest<K>, ks: set<K>, more: set<K>)
    requires ks <= more && Lucky(y, h, more)
    ensures Lucky(y, h, ks)
  {
    forall b: nat
      ensures |InBucket(y, h, ks, b)| <= Pow2(y.log2Bucket)
    {
      SmallerSet(InBucket(y, h, ks, b), InBucket(y, h, more, b));
    }
  }

  // Attempts that are unlucky for the keys are so with one more.
  // Whether seed j is lucky, when the attempts begin with seed from at capacity c.
  ghost predicate LuckyAt<K(!new)>(c: nat, seeds: seq<nat>, from: nat, j: nat, h: Digest<K>, ks: set<K>)
    requires from <= j < |seeds|
  {
    Lucky(Attempt(c, j - from, seeds[j]), h, ks)
  }

  // Attempts that are unlucky for the keys are so with one more.
  lemma UnluckyWithMore<K(!new)>(c: nat, seeds: seq<nat>, from: nat, j: nat, h: Digest<K>, ks: set<K>, k: K)
    requires from <= j < |seeds| && LuckyAt(c, seeds, 0, j, h, ks + {k})
    ensures LuckyAt(CapAt(c, from), seeds, from, j, h, ks)
  {
    hide Lucky, Attempt, CapAt;
    AttemptMore(c, from, j - from, seeds[j]);
    FewerLucky(Attempt(c, j, seeds[j]), h, ks, ks + {k});
  }

  // None of the seeds in a range is lucky.
  ghost predicate NoneLucky<K(!new)>(c: nat, seeds: seq<nat>, from: nat, to: nat, h: Digest<K>, ks: set<K>)
    requires to <= |seeds|
  {
    forall j: nat :: from <= j < to ==> !LuckyAt(c, seeds, from, j, h, ks)
  }

  lemma MoreUnlucky<K(!new)>(c: nat, seeds: seq<nat>, from: nat, to: nat, h: Digest<K>, ks: set<K>, k: K)
    requires from <= to <= |seeds| && NoneLucky(CapAt(c, from), seeds, from, to, h, ks)
    requires NoneLucky(c, seeds, 0, from, h, ks + {k})
    ensures NoneLucky(c, seeds, 0, to, h, ks + {k})
  {
    hide LuckyAt, CapAt;
    forall j: nat | j < to
      ensures !LuckyAt(c, seeds, 0, j, h, ks + {k})
    {
      if from <= j && LuckyAt(c, seeds, 0, j, h, ks + {k}) {
        UnluckyWithMore(c, seeds, from, j, h, ks, k);
      }
    }
  }

  lemma NoSeeds<K(!new)>(c: nat, seeds: seq<nat>, from: nat, h: Digest<K>, ks: set<K>)
    requires from <= |seeds|
    ensures NoneLucky(c, seeds, from, from, h, ks)
  {
  }

  lemma SomeLucky<K(!new)>(c: nat, seeds: seq<nat>, n: nat, h: Digest<K>, ks: set<K>)
    requires n < |seeds| && Lucky(Attempt(c, n, seeds[n]), h, ks)
    ensures !NoneLucky(c, seeds, 0, |seeds|, h, ks)
  {
    hide Lucky, Attempt;
    assert LuckyAt(c, seeds, 0, n, h, ks);
  }

  // The next attempt, and whether it is lucky.
  lemma NextAttempt<K(!new)>(c: nat, seeds: seq<nat>, from: nat, n: nat, ok: bool, h: Digest<K>, ks: set<K>)
    requires from <= n < |seeds| && NoneLucky(c, seeds, from, n, h, ks)
    requires ok <==> Lucky(Attempt(c, n - from, seeds[n]), h, ks)
    ensures NoneLucky(c, seeds, from, if ok then n else n + 1, h, ks) && (ok ==> LuckyAt(c, seeds, from, n, h, ks))
  {
    hide Lucky, Attempt;
  }

  lemma OneMoreUnlucky<K(!new)>(c: nat, seeds: seq<nat>, n: nat, h: Digest<K>, ks: set<K>)
    requires n < |seeds| && NoneLucky(c, seeds, 0, n, h, ks) && !Lucky(Attempt(c, n, seeds[n]), h, ks)
    ensures NoneLucky(c, seeds, 0, n + 1, h, ks)
  {
    hide Lucky, Attempt;
  }

  function Slice(a: nat, n: nat): (r: set<nat>)
    ensures |r| == n && forall i: nat :: i in r <==> a <= i < a + n
  {
    if n == 0 then {} else Slice(a, n - 1) + {a + n - 1}
  }

  // The slots of bucket b.
  function SlotsOf(y: Layout, b: nat): (r: set<nat>)
    ensures |r| == Pow2(y.log2Bucket)
  {
    Slice(b * Pow2(y.log2Bucket), Pow2(y.log2Bucket))
  }

  lemma SlotIn(y: Layout, b: nat, i: nat)
    ensures i in SlotsOf(y, b) <==> BucketOf(y, i) == b
  {
    hide Pow2, Shr;
    var p := Pow2(y.log2Bucket);
    ShrBelow(i, b, y.log2Bucket);
    ShrBelow(i, b + 1, y.log2Bucket);
    assert (b + 1) * p == b * p + p;
  }

  lemma {:induction false} ImageCount<K(!new)>(keys: map<nat, K>, s: set<nat>)
    requires NoTwins(keys) && s <= keys.Keys
    ensures |set i | i in s :: keys[i]| == |s|
  {
    var image := set i | i in s :: keys[i];
    if s == {} {
      assert image == {};
    } else {
      var x :| x in s;
      var rest := set i | i in s - {x} :: keys[i];
      ImageCount(keys, s - {x});
      assert image == rest + {keys[x]} && keys[x] !in rest;
    }
  }

  // A key sits in the bucket of its base index.
  lemma KeyInBucket<K(!new)>(y: Layout, s: Slots, keys: map<nat, K>, h: Digest<K>, i: nat)
    requires Placed(y, s, keys, h) && i in keys
    ensures BucketOf(y, i) == BucketOf(y, Base(y, h, keys[i])) && i < |s.bitDiffs|
  {
    hide Placed, Base, Xor, Shr, Pow2;
    KeyAt(y, s, keys, h, keys[i], i);
    XorStays(Base(y, h, keys[i]), s.bitDiffs[i] - 1, y.log2Bucket);
  }

  // Keys that all have a slot were lucky.
  lemma PlacedLucky<K(!new)>(y: Layout, s: Slots, keys: map<nat, K>, h: Digest<K>)
    requires Placed(y, s, keys, h)
    ensures Lucky(y, h, keys.Values)
  {
    hide Placed, Base, BucketOf, SlotsOf, NoTwins;
    PlacedSized(y, s, keys, h);
    forall b: nat
      ensures |InBucket(y, h, keys.Values, b)| <= Pow2(y.log2Bucket)
    {
      var slots := set i | i in keys && BucketOf(y, i) == b;
      var image := set i | i in slots :: keys[i];
      forall k | k in InBucket(y, h, keys.Values, b)
        ensures k in image
      {
        var i :| i in keys && keys[i] == k;
        KeyInBucket(y, s, keys, h, i);
        assert i in slots;
      }
      forall i | i in slots
        ensures i in SlotsOf(y, b)
      {
        SlotIn(y, b, i);
      }
      ImageCount(keys, slots);
      SmallerSet(InBucket(y, h, keys.Values, b), image);
      SmallerSet(slots, SlotsOf(y, b));
    }
  }

  // The slots of a full bucket hold keys, and those keys belong there.
  lemma FullBucket<K(!new)>(y: Layout, s: Slots, keys: map<nat, K>, h: Digest<K>, k: K, i: nat)
    requires Placed(y, s, keys, h) && BucketFull(y, s, Base(y, h, k)) && i in SlotsOf(y, BucketOf(y, Base(y, h, k)))
    ensures i in keys && BucketOf(y, Base(y, h, keys[i])) == BucketOf(y, Base(y, h, k))
  {
    hide Placed, Base, Shr, Pow2, Xor, SlotsOf, Fits;
    var b := Base(y, h, k);
    SlotIn(y, BucketOf(y, b), i);
    PlacedSized(y, s, keys, h);
    Pow2Positive(y.log2Bucket);
    BaseInRange(y, s, h, k, 0);
    CapIsAligned(y);
    ShrBelow(i, BucketOf(y, y.cap), y.log2Bucket);
    PlacedValid(y, s, keys, h, i);
    KeyInBucket(y, s, keys, h, i);
  }

  lemma Pow2Positive(k: nat)
    ensures Pow2(k) > 0
  {
  }

  // A key that finds its bucket full has bad luck, together with those there.
  lemma FullUnlucky<K(!new)>(y: Layout, s: Slots, keys: map<nat, K>, h: Digest<K>, ks: set<K>, k: K)
    requires Placed(y, s, keys, h) && BucketFull(y, s, Base(y, h, k)) && k !in keys.Values && k in ks && keys.Values <= ks
    ensures !Lucky(y, h, ks)
  {
    hide Placed, Base, BucketOf, SlotsOf, BucketFull, NoTwins;
    var b := BucketOf(y, Base(y, h, k));
    var slots := SlotsOf(y, b);
    PlacedSized(y, s, keys, h);
    forall i | i in slots
      ensures i in keys && BucketOf(y, Base(y, h, keys[i])) == b
    {
      FullBucket(y, s, keys, h, k, i);
    }
    var image := set i | i in slots :: keys[i];
    ImageCount(keys, slots);
    assert k !in image;
    SmallerSet(image + {k}, InBucket(y, h, ks, b));
  }
}

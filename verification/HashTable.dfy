// The table of the hash index: which slots are valid, and why a search that
// stops early finds every key.
module HashTables {
  import opened Basics
  import opened Caps
  import opened HashSlots

  // What the key hashes to with a seed: a 32-bit limit and an offset.
  type Digest<!K> = (nat, K) -> (nat, nat)

  function Base<K>(y: Layout, h: Digest<K>, k: K): nat {
    BaseIndex(y, h(y.seed, k).0 % 0x1_0000_0000, h(y.seed, k).1)
  }

  // The arrays of an allocation: bit difference plus one by slot, 0 when the
  // slot is free, and the largest of each bucket.
  datatype Slots = Slots(bitDiffs: seq<nat>, maxDiffs: seq<nat>)

  ghost predicate Sized(y: Layout, s: Slots) {
    Fits(y) && |s.bitDiffs| == y.cap && |s.maxDiffs| == BucketOf(y, y.cap)
  }

  // Slot i holds a key of base index b.
  ghost predicate Holds(y: Layout, s: Slots, i: nat, b: nat) {
    && i < |s.bitDiffs| && BucketOf(y, b) < |s.maxDiffs|
    && 0 < s.bitDiffs[i] <= Pow2(y.log2Bucket) && i == Xor(b, s.bitDiffs[i] - 1)
    && s.bitDiffs[i] <= s.maxDiffs[BucketOf(y, b)]
  }

  ghost predicate NoTwins<K(!new)>(keys: map<nat, K>) {
    forall i, j :: i in keys && j in keys && keys[i] == keys[j] ==> i == j
  }

  // keys is the owner's key of each valid slot.
  ghost predicate Placed<K(!new)>(y: Layout, s: Slots, keys: map<nat, K>, h: Digest<K>) {
    && Sized(y, s) && NoTwins(keys)
    && (forall i :: i in keys ==> i < |s.bitDiffs| && Holds(y, s, i, Base(y, h, keys[i])))
    && (forall i :: 0 <= i < |s.bitDiffs| && s.bitDiffs[i] > 0 ==> i in keys)
  }

  // The slot a key of base index b takes at difference d.
  function Take(y: Layout, s: Slots, b: nat, d: nat): Slots
    requires Xor(b, d) < |s.bitDiffs| && BucketOf(y, b) < |s.maxDiffs|
  {
    var bi := BucketOf(y, b);
    Slots(s.bitDiffs[Xor(b, d) := d + 1], if d + 1 > s.maxDiffs[bi] then s.maxDiffs[bi := d + 1] else s.maxDiffs)
  }

  // No slot of the bucket of b is free.
  ghost predicate BucketFull(y: Layout, s: Slots, b: nat) {
    forall i :: 0 <= i < |s.bitDiffs| && BucketOf(y, i) == BucketOf(y, b) ==> s.bitDiffs[i] > 0
  }

  // None of the differences below diff leads to a free slot.
  ghost predicate NoneFree(s: Slots, b: nat, diff: nat) {
    forall e: nat :: e < diff && Xor(b, e) < |s.bitDiffs| ==> s.bitDiffs[Xor(b, e)] > 0
  }

  // There is no room for the key: no slots at all, or none free in its bucket.
  ghost predicate Crowded<K>(y: Layout, s: Slots, h: Digest<K>, k: K) {
    s.bitDiffs == [] || BucketFull(y, s, Base(y, h, k))
  }

  lemma AllProbed(y: Layout, s: Slots, b: nat)
    requires NoneFree(s, b, Pow2(y.log2Bucket))
    ensures BucketFull(y, s, b)
  {
    forall i | 0 <= i < |s.bitDiffs| && BucketOf(y, i) == BucketOf(y, b)
      ensures s.bitDiffs[i] > 0
    {
      XorReaches(b, i, y.log2Bucket);
      assert Xor(b, Xor(b, i)) == i;
    }
  }

  lemma TakeTwice(y: Layout, s: Slots, b: nat, d: nat)
    requires Xor(b, d) < |s.bitDiffs| && BucketOf(y, b) < |s.maxDiffs|
    ensures Take(y, Take(y, s, b, d), b, d) == Take(y, s, b, d)
  {
  }

  lemma TakeSizes(y: Layout, s: Slots, b: nat, d: nat)
    requires Xor(b, d) < |s.bitDiffs| && BucketOf(y, b) < |s.maxDiffs|
    ensures |Take(y, s, b, d).bitDiffs| == |s.bitDiffs| && |Take(y, s, b, d).maxDiffs| == |s.maxDiffs|
  {
  }

  lemma BaseInRange<K>(y: Layout, s: Slots, h: Digest<K>, k: K, d: nat)
    requires Sized(y, s) && d < Pow2(y.log2Bucket)
    ensures var b := Base(y, h, k);
            Xor(b, d) < |s.bitDiffs| && BucketOf(y, b) < |s.maxDiffs| && BucketOf(y, Xor(b, d)) == BucketOf(y, b)
  {
    SlotInRange(y, h(y.seed, k).0 % 0x1_0000_0000, h(y.seed, k).1, d);
  }

  // A key that is there is at one difference only, not above the largest of its bucket.
  lemma KeyAt<K(!new)>(y: Layout, s: Slots, keys: map<nat, K>, h: Digest<K>, k: K, i: nat)
    requires Placed(y, s, keys, h) && i in keys && keys[i] == k
    ensures i < |s.bitDiffs| && 0 < s.bitDiffs[i] <= Pow2(y.log2Bucket)
    ensures i == Xor(Base(y, h, k), s.bitDiffs[i] - 1)
    ensures BucketOf(y, Base(y, h, k)) < |s.maxDiffs| && s.bitDiffs[i] <= s.maxDiffs[BucketOf(y, Base(y, h, k))]
  {
    assert Holds(y, s, i, Base(y, h, keys[i]));
  }

  lemma PlacedSized<K(!new)>(y: Layout, s: Slots, keys: map<nat, K>, h: Digest<K>)
    requires Placed(y, s, keys, h)
    ensures Sized(y, s) && NoTwins(keys)
  {
  }

  lemma PlacedValid<K(!new)>(y: Layout, s: Slots, keys: map<nat, K>, h: Digest<K>, i: nat)
    requires Placed(y, s, keys, h) && i < |s.bitDiffs|
    ensures i in keys <==> s.bitDiffs[i] > 0
  {
    assert i in keys ==> Holds(y, s, i, Base(y, h, keys[i]));
  }

  lemma AddOne<K>(keys: map<nat, K>, i: nat, k: K)
    requires i !in keys
    ensures |keys[i := k]| == |keys| + 1 && keys[i := k].Values == keys.Values + {k}
  {
    var more := keys[i := k];
    assert more.Keys == keys.Keys + {i} && |more.Keys| == |more|;
    forall x | x in keys.Values + {k}
      ensures x in more.Values
    {
      if x == k {
        assert more[i] == k;
      } else {
        var j :| j in keys && keys[j] == x;
        assert more[j] == x;
      }
    }
  }

  lemma {:induction false} ValuesCount<K(!new)>(keys: map<nat, K>)
    requires NoTwins(keys)
    ensures |keys.Values| == |keys|
  {
    if keys == map[] {
      assert keys.Values == {};
    } else {
      var i :| i in keys;
      var rest := keys - {i};
      ValuesCount(rest);
      RemoveOne(keys, i);
      assert keys == rest[i := keys[i]];
      AddOne(rest, i, keys[i]);
      assert keys[i] !in rest.Values;
    }
  }

  // Setting the difference of the free slot found, and then once more.
  lemma KeyAdded<K(!new)>(y: Layout, s: Slots, keys: map<nat, K>, h: Digest<K>, k: K, b: nat, d: nat)
    requires Placed(y, s, keys, h) && d < Pow2(y.log2Bucket) && k !in keys.Values && b == Base(y, h, k)
    requires Xor(b, d) < |s.bitDiffs| && BucketOf(y, b) < |s.maxDiffs| && s.bitDiffs[Xor(b, d)] == 0
    ensures var s' := Take(y, s, b, d);
            && |s'.bitDiffs| == |s.bitDiffs| && |s'.maxDiffs| == |s.maxDiffs| && Take(y, s', b, d) == s'
            && Placed(y, s', keys[Xor(b, d) := k], h)
    ensures Xor(b, d) !in keys && |keys[Xor(b, d) := k]| == |keys| + 1
  {
    hide Placed, Base, Xor, Shr, Pow2, BucketOf;
    TakePlaced(y, s, keys, h, k, d);
    TakeTwice(y, s, b, d);
    TakeSizes(y, s, b, d);
    AddOne(keys, Xor(b, d), k);
  }

  lemma SameCount<K(!new)>(keys: map<nat, K>, before: map<nat, K>)
    requires NoTwins(keys) && NoTwins(before) && keys.Values == before.Values
    ensures |keys| == |before|
  {
    ValuesCount(keys);
    ValuesCount(before);
  }

  lemma RemoveOne<K>(keys: map<nat, K>, i: nat)
    requires i in keys
    ensures |keys - {i}| == |keys| - 1
  {
    assert (keys - {i}).Keys == keys.Keys - {i};
    assert |keys.Keys| == |keys| && |(keys - {i}).Keys| == |keys - {i}|;
  }

  // ---- searching by increasing difference

  // k is not at a difference below diff.
  ghost predicate NotBelow<K(!new)>(keys: map<nat, K>, b: nat, k: K, diff: nat) {
    forall e: nat :: e < diff && Xor(b, e) in keys ==> keys[Xor(b, e)] != k
  }

  // A slot whose difference is another one does not hold the key.
  lemma OtherDiff<K(!new)>(y: Layout, s: Slots, keys: map<nat, K>, h: Digest<K>, k: K, diff: nat)
    requires Placed(y, s, keys, h) && Xor(Base(y, h, k), diff) < |s.bitDiffs|
    requires s.bitDiffs[Xor(Base(y, h, k), diff)] != diff + 1
    ensures Xor(Base(y, h, k), diff) in keys ==> keys[Xor(Base(y, h, k), diff)] != k
  {
    hide Placed, Base, Xor, Pow2;
    var i := Xor(Base(y, h, k), diff);
    if i in keys && keys[i] == k {
      KeyAt(y, s, keys, h, k, i);
      XorInjective(Base(y, h, k), diff, s.bitDiffs[i] - 1);
    }
  }

  // From the largest difference of the bucket on there is nothing to find.
  lemma EarlyExit<K(!new)>(y: Layout, s: Slots, keys: map<nat, K>, h: Digest<K>, k: K, diff: nat)
    requires Placed(y, s, keys, h) && NotBelow(keys, Base(y, h, k), k, diff)
    requires BucketOf(y, Base(y, h, k)) < |s.maxDiffs| && diff + 1 >= s.maxDiffs[BucketOf(y, Base(y, h, k))]
    requires Xor(Base(y, h, k), diff) < |s.bitDiffs| && s.bitDiffs[Xor(Base(y, h, k), diff)] != diff + 1
    ensures k !in keys.Values
  {
    hide Placed, Base, Xor, Pow2, BucketOf;
    OtherDiff(y, s, keys, h, k, diff);
    forall i | i in keys
      ensures keys[i] != k
    {
      if keys[i] == k {
        KeyAt(y, s, keys, h, k, i);
      }
    }
  }

  lemma NoneLeft<K(!new)>(y: Layout, s: Slots, keys: map<nat, K>, h: Digest<K>, k: K)
    requires Placed(y, s, keys, h) && NotBelow(keys, Base(y, h, k), k, Pow2(y.log2Bucket))
    ensures k !in keys.Values
  {
    hide Placed, Base, Xor, Pow2, BucketOf;
    forall i | i in keys
      ensures keys[i] != k
    {
      if keys[i] == k {
        KeyAt(y, s, keys, h, k, i);
      }
    }
  }

  // A free slot of the bucket takes a new key.
  lemma TakePlaced<K(!new)>(y: Layout, s: Slots, keys: map<nat, K>, h: Digest<K>, k: K, d: nat)
    requires Placed(y, s, keys, h) && d < Pow2(y.log2Bucket) && k !in keys.Values
    requires Xor(Base(y, h, k), d) < |s.bitDiffs| && BucketOf(y, Base(y, h, k)) < |s.maxDiffs|
    requires s.bitDiffs[Xor(Base(y, h, k), d)] == 0
    ensures Xor(Base(y, h, k), d) !in keys
    ensures Placed(y, Take(y, s, Base(y, h, k), d), keys[Xor(Base(y, h, k), d) := k], h)
  {
    hide Fits, BaseIndex, Xor, Shr, Pow2;
    var b := Base(y, h, k);
    var at := Xor(b, d);
    assert at in keys ==> Holds(y, s, at, Base(y, h, keys[at]));
    var s' := Take(y, s, b, d);
    var keys' := keys[at := k];
    forall i | i in keys'
      ensures i < |s'.bitDiffs| && Holds(y, s', i, Base(y, h, keys'[i]))
    {
      if i != at {
        assert Holds(y, s, i, Base(y, h, keys[i]));
      }
    }
    forall i, j | i in keys' && j in keys' && keys'[i] == keys'[j]
      ensures i == j
    {
      assert i in keys ==> keys[i] in keys.Values;
      assert j in keys ==> keys[j] in keys.Values;
    }
  }

  // Giving up the slot of a key.
  lemma UnsetPlaced<K(!new)>(y: Layout, s: Slots, keys: map<nat, K>, h: Digest<K>, i: nat)
    requires Placed(y, s, keys, h) && i in keys && i < |s.bitDiffs|
    ensures Placed(y, Slots(s.bitDiffs[i := 0], s.maxDiffs), keys - {i}, h)
  {
    hide Fits, BaseIndex, Xor, Shr, Pow2;
    var s' := Slots(s.bitDiffs[i := 0], s.maxDiffs);
    forall j | j in keys - {i}
      ensures j < |s'.bitDiffs| && Holds(y, s', j, Base(y, h, (keys - {i})[j]))
    {
      assert Holds(y, s, j, Base(y, h, keys[j]));
    }
  }

  // ---- allocating

  ghost predicate Free(s: Slots) {
    forall i :: 0 <= i < |s.bitDiffs| ==> s.bitDiffs[i] == 0
  }

  lemma RoundGivesCap(n: nat)
    requires n > 0
    ensures IsCap(Round(n)) && Round(n) >= n
  {
    var i, j := RoundIsCap(n);
  }

  lemma FreePlaced<K(!new)>(y: Layout, s: Slots, h: Digest<K>)
    requires Sized(y, s) && Free(s)
    ensures Placed(y, s, map[], h)
  {
  }

  // Cleared slots keep their number.
  lemma ClearedSized<K(!new)>(y: Layout, s: Slots, s': Slots, keys: map<nat, K>, h: Digest<K>)
    requires Placed(y, s, keys, h) && |s'.bitDiffs| == |s.bitDiffs| && |s'.maxDiffs| == |s.maxDiffs|
    requires forall i :: 0 <= i < |s'.bitDiffs| ==> s'.bitDiffs[i] == 0
    ensures Sized(y, s') && Free(s')
  {
  }

  // The bucket size for a first exponent, and the second exponent raised to it.
  function Log2Bucket(c0: nat): nat
    requires c0 >= 1
  {
    if (c0 - 1) / 2 > 7 then 7 else (c0 - 1) / 2
  }

  function RaisedCap(cap: nat): nat
    requires IsCap(cap)
  {
    var (c0, c1) := Log2(cap);
    if c1.Some? && Log2Bucket(c0) > c1.value then Pow2(c0) + Pow2(Log2Bucket(c0)) else cap
  }

  lemma RaisedIsCap(cap: nat)
    requires IsCap(cap)
    ensures cap <= RaisedCap(cap) && IsCap(RaisedCap(cap))
    ensures Log2(RaisedCap(cap)).0 == Log2(cap).0 && (Log2(RaisedCap(cap)).1.Some? <==> Log2(cap).1.Some?)
    ensures Log2(cap).1.Some? ==>
              Log2(RaisedCap(cap)).1.value == if Log2Bucket(Log2(cap).0) > Log2(cap).1.value then Log2Bucket(Log2(cap).0) else Log2(cap).1.value
  {
    var (c0, c1) := Log2(cap);
    if c1.Some? && Log2Bucket(c0) > c1.value {
      var b := Log2Bucket(c0);
      Log2OfCap(c0, Some(b));
      Pow2Grows(c1.value, b);
      assert RaisedCap(cap) == CapOf(c0, Some(b));
    }
  }

  lemma CapPositive(cap: nat)
    requires IsCap(cap)
    ensures cap > 0 && Log2(cap).0 >= 3
  {
  }

  lemma RaisedCapIs(cap: nat)
    requires IsCap(cap)
    ensures RaisedCap(cap) == (if Log2(cap).1.Some? && Log2Bucket(Log2(cap).0) > Log2(cap).1.value
                               then Pow2(Log2(cap).0) + Pow2(Log2Bucket(Log2(cap).0)) else cap)
  {
  }

  lemma RaisedOnce(cap: nat)
    requires IsCap(cap)
    ensures IsCap(RaisedCap(cap)) && RaisedCap(RaisedCap(cap)) == RaisedCap(cap)
  {
    hide Log2;
    RaisedIsCap(cap);
  }

  // Buckets of at most 2^7, and no larger than either table.
  lemma LayoutFits(cap: nat, seed: nat, c1: nat, limit0: nat)
    requires IsCap(cap) && cap == RaisedCap(cap)
    requires Log2(cap).1.Some? ==> c1 == Log2(cap).1.value
    requires Log2(cap).1.None? ==> limit0 == MAX_LIMIT
    ensures Fits(Layout(seed, cap, Log2(cap).0, c1, Log2Bucket(Log2(cap).0), limit0))
  {
    var (c0, j) := Log2(cap);
    if j.Some? {
      Log2OfCap(c0, Some(Log2Bucket(c0)));
    }
  }

  // The share of table 0, as a limit on 32-bit hashes.
  function Limit0(c0: nat, cap: nat): nat
    requires cap > 0
  {
    Pow2(32 + c0) / cap
  }

  // ---- moving all keys to another allocation

  datatype Copy = Copy(src: nat, dst: nat)

  ghost predicate IsSrc(copies: seq<Copy>, i: nat) {
    exists c :: 0 <= c < |copies| && copies[c].src == i
  }

  ghost predicate IsDst(copies: seq<Copy>, i: nat) {
    exists c :: 0 <= c < |copies| && copies[c].dst == i
  }

  // Copy c takes the key at its source to its destination.
  ghost predicate Takes<K(!new)>(c: Copy, keys: map<nat, K>, moved: map<nat, K>) {
    c.src in keys && c.dst in moved && moved[c.dst] == keys[c.src]
  }

  // copies pairs the valid slots below upto, in increasing order, with all slots
  // of moved, one to one, and every key goes along.
  ghost predicate Moved<K(!new)>(copies: seq<Copy>, keys: map<nat, K>, moved: map<nat, K>, upto: nat) {
    && (forall c :: 0 <= c < |copies| ==> Takes(copies[c], keys, moved) && copies[c].src < upto)
    && (forall c, e :: 0 <= c < e < |copies| ==> copies[c].src < copies[e].src && copies[c].dst != copies[e].dst)
    && (forall i :: i in keys && i < upto ==> IsSrc(copies, i))
    && (forall i :: i in moved ==> IsDst(copies, i))
    && |copies| == |moved|
  }

  // bds are the slots that the owner's keys are at.
  ghost predicate Before<K>(bds: seq<nat>, keys: map<nat, K>) {
    && (forall i :: i in keys ==> i < |bds|)
    && (forall i :: 0 <= i < |bds| ==> (bds[i] > 0 <==> i in keys))
  }

  lemma ValidBefore<K(!new)>(y: Layout, s: Slots, keys: map<nat, K>, h: Digest<K>, empty: bool)
    requires empty <==> s.bitDiffs == []
    requires if empty then keys == map[] else Placed(y, s, keys, h)
    ensures Before(s.bitDiffs, keys) && NoTwins(keys)
  {
    forall i | 0 <= i < |s.bitDiffs|
      ensures s.bitDiffs[i] > 0 <==> i in keys
    {
      PlacedValid(y, s, keys, h, i);
    }
  }

  lemma AllMoved<K(!new)>(copies: seq<Copy>, bds: seq<nat>, keys: map<nat, K>, moved: map<nat, K>)
    requires Before(bds, keys) && Moved(copies, keys, moved, |bds|)
    ensures moved.Values == keys.Values
  {
    hide Moved;
    MovedAll(copies, keys, moved, |bds|);
  }

  lemma MovedStart<K(!new)>(keys: map<nat, K>)
    ensures Moved([], keys, map[], 0)
  {
  }

  lemma MovedCount<K(!new)>(copies: seq<Copy>, keys: map<nat, K>, moved: map<nat, K>, upto: nat)
    requires Moved(copies, keys, moved, upto)
    ensures |copies| == |moved|
  {
  }

  lemma CopiesMore(copies: seq<Copy>, x: Copy)
    ensures forall i :: IsSrc(copies, i) || i == x.src ==> IsSrc(copies + [x], i)
    ensures forall i :: IsDst(copies, i) || i == x.dst ==> IsDst(copies + [x], i)
  {
    var more := copies + [x];
    assert more[|copies|] == x && forall c :: 0 <= c < |copies| ==> more[c] == copies[c];
  }

  lemma MovedOne<K(!new)>(copies: seq<Copy>, keys: map<nat, K>, moved: map<nat, K>, src: nat, dst: nat)
    requires Moved(copies, keys, moved, src) && src in keys && dst !in moved
    ensures Moved(copies + [Copy(src, dst)], keys, moved[dst := keys[src]], src + 1)
  {
    hide IsSrc, IsDst;
    CopiesMore(copies, Copy(src, dst));
  }

  lemma MovedNone<K(!new)>(copies: seq<Copy>, keys: map<nat, K>, moved: map<nat, K>, src: nat)
    requires Moved(copies, keys, moved, src) && src !in keys
    ensures Moved(copies, keys, moved, src + 1)
  {
    hide IsSrc, IsDst, Takes;
  }

  lemma WhereFrom<K(!new)>(copies: seq<Copy>, keys: map<nat, K>, moved: map<nat, K>, upto: nat, i: nat) returns (src: nat)
    requires Moved(copies, keys, moved, upto) && i in moved
    ensures src in keys && src < upto && keys[src] == moved[i]
  {
    hide IsSrc;
    assert IsDst(copies, i);
    var c :| 0 <= c < |copies| && copies[c].dst == i;
    src := copies[c].src;
  }

  lemma WhereTo<K(!new)>(copies: seq<Copy>, keys: map<nat, K>, moved: map<nat, K>, upto: nat, i: nat) returns (dst: nat)
    requires Moved(copies, keys, moved, upto) && i in keys && i < upto
    ensures dst in moved && moved[dst] == keys[i]
  {
    hide IsDst;
    assert IsSrc(copies, i);
    var c :| 0 <= c < |copies| && copies[c].src == i;
    dst := copies[c].dst;
  }

  // A key not moved yet is not among those moved.
  lemma MovedFresh<K(!new)>(copies: seq<Copy>, keys: map<nat, K>, moved: map<nat, K>, src: nat)
    requires Moved(copies, keys, moved, src) && NoTwins(keys) && src in keys
    ensures keys[src] !in moved.Values
  {
    hide Moved;
    forall i | i in moved
      ensures moved[i] != keys[src]
    {
      var from := WhereFrom(copies, keys, moved, src, i);
    }
  }

  lemma MovedWithin<K(!new)>(copies: seq<Copy>, keys: map<nat, K>, moved: map<nat, K>, upto: nat)
    requires Moved(copies, keys, moved, upto)
    ensures moved.Values <= keys.Values
  {
    hide Moved;
    forall k | k in moved.Values
      ensures k in keys.Values
    {
      var i :| i in moved && moved[i] == k;
      var from := WhereFrom(copies, keys, moved, upto, i);
    }
  }

  lemma MovedAll<K(!new)>(copies: seq<Copy>, keys: map<nat, K>, moved: map<nat, K>, upto: nat)
    requires Moved(copies, keys, moved, upto) && forall i :: i in keys ==> i < upto
    ensures moved.Values == keys.Values
  {
    hide Moved;
    forall k | k in keys.Values
      ensures k in moved.Values
    {
      var i :| i in keys && keys[i] == k;
      var to := WhereTo(copies, keys, moved, upto, i);
    }
    MovedWithin(copies, keys, moved, upto);
  }
}

// The hash index: gives every key a slot in tables the owner keeps.
module HashIndices {
  import opened Basics
  import opened Caps
  import opened HashSlots
  import opened HashTables
  import opened HashLuck

  class Hash<K(!new, ==)> {
    var seed: nat
    var cap: nat
    var log2Cap0: nat
    var log2Cap1: nat
    var log2EltsPerBucket: nat
    var limit0: nat
    var bitDiffs: seq<nat>
    var maxBucketBitDiffs: seq<nat>
    var nElts: nat

    // Copies of the last resize, and the room there is for them.
    var resizeCopies: seq<Copy>
    var resizeRoom: nat

    // The owner's table: its key at each valid slot.
    var keys: map<nat, K>

    const digest: Digest<K>

    function Lay(): Layout
      reads this
    {
      Layout(seed, cap, log2Cap0, log2Cap1, log2EltsPerBucket, limit0)
    }

    function Sl(): Slots
      reads this
    {
      Slots(bitDiffs, maxBucketBitDiffs)
    }

    predicate Empty()
      reads this
    {
      |bitDiffs| == 0
    }

    ghost predicate Valid()
      reads this
    {
      && nElts == |keys|
      && (if Empty() then keys == map[] && cap == 0 else Placed(Lay(), Sl(), keys, digest) && cap == |bitDiffs|)
      && (resizeRoom < |bitDiffs| || resizeRoom == 0)
    }

    // Room for capacity c, rounded up; none for 0.
    constructor (c: nat, digest: Digest<K>, newSeed: nat)
      ensures Valid() && keys == map[] && this.digest == digest && (Empty() <==> c == 0) && cap >= c
    {
      this.digest := digest;
      seed, cap, log2Cap0, log2Cap1, log2EltsPerBucket, limit0 := newSeed, Round(c), 0, 0, 7, MAX_LIMIT;
      bitDiffs, maxBucketBitDiffs, nElts, resizeCopies, resizeRoom, keys := [], [], 0, [], 0, map[];
      new;
      if c > 0 {
        RoundGivesCap(c);
        Alloc(newSeed);
        FreePlaced(Lay(), Sl(), this.digest);
      }
    }

    // ---- searching

    function BaseIndexForKey(k: K): nat
      reads this
    {
      Base(Lay(), digest, k)
    }

    // Stops at the largest difference of the bucket and still misses no key.
    method SearchBase(baseIndex: nat, k: K) returns (matchDiff: nat, ok: bool)
      requires Placed(Lay(), Sl(), keys, digest) && baseIndex == Base(Lay(), digest, k)
      ensures ok <==> k in keys.Values
      ensures ok ==> matchDiff < Pow2(log2EltsPerBucket)
                     && Xor(baseIndex, matchDiff) in keys && keys[Xor(baseIndex, matchDiff)] == k
                     && Xor(baseIndex, matchDiff) < |bitDiffs|
    {
      hide Pow2, Xor, Shr, Base, Fits, BaseIndex, Placed;
      var n := Pow2(log2EltsPerBucket);
      matchDiff, ok := n, false;
      PlacedSized(Lay(), Sl(), keys, digest);
      BaseInRange(Lay(), Sl(), digest, k, 0);
      var bucketIndex := Shr(baseIndex, log2EltsPerBucket);
      var maxValidDiff := maxBucketBitDiffs[bucketIndex];
      var diff := 0;
      while diff < n
        invariant diff <= n
        invariant NotBelow(keys, baseIndex, k, diff)
      {
        BaseInRange(Lay(), Sl(), digest, k, diff);
        var i := Xor(baseIndex, diff);
        if bitDiffs[i] == diff + 1 {
          PlacedValid(Lay(), Sl(), keys, digest, i);
          if keys[i] == k {
            matchDiff, ok := diff, true;
            return;
          }
        } else if diff + 1 >= maxValidDiff {
          EarlyExit(Lay(), Sl(), keys, digest, k, diff);
          return;
        } else {
          OtherDiff(Lay(), Sl(), keys, digest, k, diff);
        }
        diff := diff + 1;
      }
      NoneLeft(Lay(), Sl(), keys, digest, k);
    }

    // The difference of a slot, and the largest one of the bucket if it grows.
    method SetDiff(i: nat, baseIndex: nat, diff: nat)
      requires i == Xor(baseIndex, diff) && i < |bitDiffs| && BucketOf(Lay(), baseIndex) < |maxBucketBitDiffs|
      modifies this`bitDiffs, this`maxBucketBitDiffs
      ensures Sl() == Take(Lay(), old(Sl()), baseIndex, diff)
    {
      var bd := 1 + diff;
      var bi := Shr(baseIndex, log2EltsPerBucket);
      if bd > maxBucketBitDiffs[bi] {
        maxBucketBitDiffs := maxBucketBitDiffs[bi := bd];
      }
      bitDiffs := bitDiffs[i := bd];
    }

    // Takes the free slot of least difference, unless the bucket is full.
    method SearchFreeIndex(baseIndex: nat, ghost k: K) returns (i: nat, diff: nat, ok: bool)
      requires Sized(Lay(), Sl()) && baseIndex == Base(Lay(), digest, k)
      modifies this`bitDiffs, this`maxBucketBitDiffs
      ensures ok ==> diff < Pow2(log2EltsPerBucket) && i == Xor(baseIndex, diff)
                     && i < |old(bitDiffs)| && old(bitDiffs)[i] == 0
                     && BucketOf(Lay(), baseIndex) < |old(maxBucketBitDiffs)|
                     && Sl() == Take(Lay(), old(Sl()), baseIndex, diff)
      ensures !ok ==> Sl() == old(Sl()) && BucketFull(Lay(), Sl(), baseIndex)
      ensures ok ==> !BucketFull(Lay(), old(Sl()), baseIndex)
    {
      hide Pow2, Xor, Shr, Base, Fits, BaseIndex;
      var n := Pow2(log2EltsPerBucket);
      i, diff, ok := 0, 0, false;
      while diff < n
        invariant diff <= n && Sl() == old(Sl())
        invariant NoneFree(Sl(), baseIndex, diff)
      {
        BaseInRange(Lay(), Sl(), digest, k, diff);
        i := Xor(baseIndex, diff);
        if bitDiffs[i] == 0 {
          SetDiff(i, baseIndex, diff);
          ok := true;
          return;
        }
        diff := diff + 1;
      }
      AllProbed(Lay(), Sl(), baseIndex);
    }

    method Get(k: K) returns (i: nat, ok: bool)
      requires Valid()
      ensures ok <==> k in keys.Values
      ensures ok ==> i in keys && keys[i] == k
    {
      i, ok := 0, false;
      if Empty() {
        return;
      }
      var bi := BaseIndexForKey(k);
      var mi;
      mi, ok := SearchBase(bi, k);
      if ok {
        i := Xor(bi, mi);
      }
    }

    // On an index that was never given room this is a panic.
    method Unset(k: K) returns (i: nat, ok: bool, panicked: bool)
      requires Valid()
      modifies this`bitDiffs, this`nElts, this`keys
      ensures Valid() && (panicked <==> old(Empty())) && (panicked ==> !ok)
      ensures ok <==> k in old(keys).Values
      ensures ok ==> i in old(keys) && old(keys)[i] == k && keys == old(keys) - {i}
      ensures !ok ==> keys == old(keys)
    {
      hide Placed, Base, Xor, Pow2, Shr;
      i, ok, panicked := 0, false, Empty();
      if panicked {
        return;
      }
      var bi := BaseIndexForKey(k);
      var mi;
      mi, ok := SearchBase(bi, k);
      if ok {
        i := Xor(bi, mi);
        UnsetPlaced(Lay(), Sl(), keys, digest, i);
        RemoveOne(keys, i);
        bitDiffs := bitDiffs[i := 0];
        nElts := nElts - 1;
        keys := keys - {i};
      }
    }

    method Clear()
      requires Valid()
      modifies this`bitDiffs, this`maxBucketBitDiffs, this`nElts, this`keys
      ensures Valid() && keys == map[] && |bitDiffs| == |old(bitDiffs)|
    {
      hide Placed;
      ghost var s := Sl();
      bitDiffs := seq(|bitDiffs|, i => 0);
      maxBucketBitDiffs := seq(|maxBucketBitDiffs|, i => 0);
      nElts := 0;
      if !Empty() {
        ClearedSized(Lay(), s, Sl(), keys, digest);
        FreePlaced(Lay(), Sl(), digest);
      }
      keys := map[];
    }

    // ---- growing

    // Fresh slots for the capacity, which may be raised a little.
    method Alloc(newSeed: nat)
      requires IsCap(cap)
      modifies this`seed, this`cap, this`log2Cap0, this`log2Cap1, this`log2EltsPerBucket, this`limit0,
               this`bitDiffs, this`maxBucketBitDiffs, this`nElts
      ensures Sized(Lay(), Sl()) && Free(Sl()) && cap >= old(cap) && IsCap(cap) && seed == newSeed && nElts == 0
      ensures Lay() == AllocLayout(old(cap), newSeed)
    {
      hide Pow2, Shr, Log2, IsCap, Fits, RaisedCap, Limit0;
      CapPositive(cap);
      RaisedIsCap(cap);
      var (c0, c1) := Log2(cap);
      log2Cap0 := c0;
      log2Cap1 := 0;
      if c1.Some? {
        log2Cap1 := c1.value;
      }
      log2EltsPerBucket := (c0 - 1) / 2;
      if log2EltsPerBucket > 7 {
        log2EltsPerBucket := 7;
      }
      if c1.None? {
        limit0 := MAX_LIMIT;
      } else {
        if log2EltsPerBucket > log2Cap1 {
          cap := Pow2(c0) + Pow2(log2EltsPerBucket);
          log2Cap1 := log2EltsPerBucket;
        }
        limit0 := Limit0(c0, cap);
      }
      seed := newSeed;
      RaisedOnce(old(cap));
      assert cap == RaisedCap(old(cap)) by { RaisedCapIs(old(cap)); }
      LayoutFits(cap, newSeed, log2Cap1, limit0);
      bitDiffs := seq(cap, i => 0);
      var nBuckets := Shr(cap, log2EltsPerBucket);
      maxBucketBitDiffs := seq(nBuckets, i => 0);
      nElts := 0;
    }

    method Grow(newSeed: nat)
      modifies this`seed, this`cap, this`log2Cap0, this`log2Cap1, this`log2EltsPerBucket, this`limit0,
               this`bitDiffs, this`maxBucketBitDiffs, this`nElts
      ensures Sized(Lay(), Sl()) && Free(Sl()) && cap > old(cap) && IsCap(cap) && seed == newSeed && nElts == 0
      ensures Lay() == Attempt(old(cap), 0, newSeed)
    {
      hide IsCap, NextUnit, AllocLayout;
      NextUnitGrows(cap);
      cap := NextUnit(cap);
      Alloc(newSeed);
    }

    // What an owner does on a resize: every key goes where its copy says.
    method HashResize(copies: seq<Copy>, ghost moved: map<nat, K>, ghost upto: nat)
      requires Moved(copies, keys, moved, upto)
      modifies this`keys
      ensures keys == moved
    {
      hide IsSrc;
      var d: map<nat, K> := map[];
      var i := 0;
      while i < |copies|
        invariant 0 <= i <= |copies| && keys == old(keys)
        invariant forall x :: x in d ==> x in moved && d[x] == moved[x]
        invariant forall c :: 0 <= c < i ==> copies[c].dst in d
      {
        assert Takes(copies[i], keys, moved);
        d := d[copies[i].dst := keys[copies[i].src]];
        i := i + 1;
      }
      forall x | x in moved
        ensures x in d
      {
        assert IsDst(copies, x);
      }
      assert d == moved;
      keys := d;
    }

    // Finds a place in the fresh slots for every key; bds are the slots before.
    // When one finds none, the owner has not been told anything yet.
    method CopyKeys(bds: seq<nat>) returns (ok: bool)
      requires Sized(Lay(), Sl()) && Free(Sl()) && IsCap(cap) && nElts == 0
      requires Before(bds, keys) && NoTwins(keys) && (resizeRoom < |bds| || |bds| <= |resizeCopies|)
      modifies this`bitDiffs, this`maxBucketBitDiffs, this`nElts, this`resizeCopies, this`resizeRoom, this`keys
      ensures Sized(Lay(), Sl()) && resizeRoom == if old(resizeRoom) < |bds| then |bds| else old(resizeRoom)
      ensures ok ==> Placed(Lay(), Sl(), keys, digest) && Moved(resizeCopies, old(keys), keys, |bds|) && nElts == |keys|
      ensures !ok ==> keys == old(keys) && |bds| <= |resizeCopies|
      ensures !ok ==> exists k :: k in keys.Values && BucketFull(Lay(), Sl(), Base(Lay(), digest, k))
      ensures ok <==> Lucky(Lay(), digest, old(keys).Values)
    {
      hide Moved, Placed, Xor, Pow2, Shr, Base, Fits, BucketFull, Lucky, Free;
      if resizeRoom < |bds| {
        resizeCopies := seq(|bds|, i => Copy(0, 0));
        resizeRoom := |bds|;
      }
      ghost var moved: map<nat, K> := map[];
      FreePlaced(Lay(), Sl(), digest);
      var src, n := 0, 0;
      MovedStart(keys);
      assert resizeCopies[..0] == [];
      while src < |bds|
        invariant 0 <= n <= src <= |bds| <= |resizeCopies| && keys == old(keys)
        invariant Placed(Lay(), Sl(), moved, digest) && Moved(resizeCopies[..n], keys, moved, src)
        invariant resizeRoom == if old(resizeRoom) < |bds| then |bds| else old(resizeRoom)
        invariant Lay() == old(Lay()) && |bitDiffs| == |old(bitDiffs)| && |maxBucketBitDiffs| == |old(maxBucketBitDiffs)|
      {
        if bds[src] > 0 {
          assert keys[src] in keys.Values;
          var found;
          found, moved := CopyOne(src, n, moved);
          if !found {
            return false;
          }
          n := n + 1;
        } else {
          MovedNone(resizeCopies[..n], keys, moved, src);
        }
        src := src + 1;
      }
      resizeCopies := resizeCopies[..n];
      TellOwner(n, moved, src);
      PlacedSized(Lay(), Sl(), keys, digest);
      ok := true;
    }

    // All keys have found a place: the owner moves them.
    method TellOwner(n: nat, ghost moved: map<nat, K>, ghost upto: nat)
      requires Moved(resizeCopies, keys, moved, upto) && n == |resizeCopies| && Placed(Lay(), Sl(), moved, digest)
      requires forall i :: i in keys ==> i < upto
      modifies this`keys, this`nElts
      ensures Placed(Lay(), Sl(), keys, digest) && Moved(resizeCopies, old(keys), keys, upto) && nElts == |keys|
      ensures Lucky(Lay(), digest, old(keys).Values)
    {
      hide Moved, Placed, Lucky;
      MovedCount(resizeCopies, keys, moved, upto);
      MovedAll(resizeCopies, keys, moved, upto);
      PlacedLucky(Lay(), Sl(), moved, digest);
      HashResize(resizeCopies, moved, upto);
      nElts := n;
    }

    // The key at src takes a free slot of its bucket, and the copy is noted.
    method CopyOne(src: nat, n: nat, ghost moved: map<nat, K>) returns (found: bool, ghost moved': map<nat, K>)
      requires Placed(Lay(), Sl(), moved, digest) && NoTwins(keys) && src in keys
      requires n < |resizeCopies| && Moved(resizeCopies[..n], keys, moved, src)
      modifies this`bitDiffs, this`maxBucketBitDiffs, this`resizeCopies
      ensures |resizeCopies| == |old(resizeCopies)|
      ensures |bitDiffs| == |old(bitDiffs)| && |maxBucketBitDiffs| == |old(maxBucketBitDiffs)|
      ensures found ==> Placed(Lay(), Sl(), moved', digest) && Moved(resizeCopies[..n + 1], keys, moved', src + 1)
      ensures !found ==> Sl() == old(Sl()) && BucketFull(Lay(), Sl(), Base(Lay(), digest, keys[src]))
                         && !Lucky(Lay(), digest, keys.Values)
    {
      hide Moved, Placed, Xor, Pow2, Shr, Base, Fits, BucketFull, Lucky, NoTwins;
      moved' := moved;
      var k := keys[src];
      var b := BaseIndexForKey(k);
      ghost var s := Sl();
      PlacedSized(Lay(), s, moved, digest);
      MovedFresh(resizeCopies[..n], keys, moved, src);
      var dst, diff;
      dst, diff, found := SearchFreeIndex(b, k);
      if !found {
        MovedWithin(resizeCopies[..n], keys, moved, src);
        assert k in keys.Values;
        FullUnlucky(Lay(), s, moved, digest, keys.Values, k);
        return;
      }
      TakePlaced(Lay(), s, moved, digest, k, diff);
      MovedOne(resizeCopies[..n], keys, moved, src, dst);
      resizeCopies := resizeCopies[n := Copy(src, dst)];
      assert resizeCopies[..n + 1] == resizeCopies[..n] + [Copy(src, dst)];
      moved' := moved[dst := k];
    }

    // One attempt, after m others from capacity c0; save are the slots before them.
    method GrowOnce(newSeed: nat, save: seq<nat>, ghost c0: nat, ghost m: nat) returns (ok: bool)
      requires cap == CapAt(c0, m) && Before(save, keys) && NoTwins(keys) && |save| <= cap
      requires resizeRoom <= |save| && (resizeRoom < |save| || |save| <= |resizeCopies|)
      modifies this
      ensures cap > old(cap) && Lay() == Attempt(c0, m, newSeed) && cap == CapAt(c0, m + 1) && resizeRoom <= |save|
      ensures ok <==> Lucky(Lay(), digest, old(keys).Values)
      ensures ok ==> Valid() && !Empty() && Moved(resizeCopies, old(keys), keys, |save|)
      ensures !ok ==> keys == old(keys) && |save| <= |resizeCopies|
    {
      hide Moved, Placed, Free, IsCap, Attempt, CapAt, Lucky, Before, NoTwins, Fits;
      AttemptMore(c0, m, 0, newSeed);
      Grow(newSeed);
      ok := CopyKeys(save);
    }

    // Grows until every key has found a place, that is with the first lucky seed;
    // seeds are the hash seeds of the allocations to come, and the source never
    // runs out of them.
    method GrowAndCopy(seeds: seq<nat>, used: nat) returns (used': nat, ok: bool)
      requires Valid() && used <= |seeds|
      modifies this
      ensures used <= used' <= |seeds| && (ok ==> used' > used) && (!ok ==> used' == |seeds|)
      ensures ok ==> Valid() && !Empty() && cap > old(cap)
                     && Moved(resizeCopies, old(keys), keys, |old(bitDiffs)|) && keys.Values == old(keys).Values
      ensures ok ==> Lay() == Attempt(old(cap), used' - 1 - used, seeds[used' - 1])
      ensures NoneLucky(old(cap), seeds, used, if ok then used' - 1 else used', digest, old(keys).Values)
      ensures ok ==> LuckyAt(old(cap), seeds, used, used' - 1, digest, old(keys).Values)
    {
      hide Moved, Placed, Free, IsCap, Attempt, CapAt, Lucky, LuckyAt, NoneLucky, Before, NoTwins;
      var save := bitDiffs;
      ValidBefore(Lay(), Sl(), keys, digest, Empty());
      used', ok := used, false;
      FirstCap(cap);
      NoSeeds(cap, seeds, used, digest, keys.Values);
      while used' < |seeds| && !ok
        invariant used <= used' <= |seeds| && (ok ==> used' > used)
        invariant ok ==> Valid() && !Empty() && Moved(resizeCopies, old(keys), keys, |save|) && cap > old(cap)
        invariant ok ==> Lay() == Attempt(old(cap), used' - 1 - used, seeds[used' - 1])
        invariant cap >= old(cap) && |save| <= old(cap)
        invariant !ok ==> keys == old(keys) && (resizeRoom < |save| || |save| <= |resizeCopies|)
        invariant resizeRoom <= |save| && cap == CapAt(old(cap), used' - used)
        invariant NoneLucky(old(cap), seeds, used, if ok then used' - 1 else used', digest, old(keys).Values)
        invariant ok ==> LuckyAt(old(cap), seeds, used, used' - 1, digest, old(keys).Values)
      {
        ok := GrowOnce(seeds[used'], save, old(cap), used' - used);
        used' := used' + 1;
        NextAttempt(old(cap), seeds, used, used' - 1, ok, digest, old(keys).Values);
      }
      if ok {
        AllMoved(resizeCopies, old(bitDiffs), old(keys), keys);
      }
    }

    // The slot of the key, or a free one of its bucket for it.
    method SetInBucket(k: K) returns (i: nat, exists_: bool, ok: bool)
      requires Valid() && !Empty()
      modifies this`bitDiffs, this`maxBucketBitDiffs, this`nElts, this`keys
      ensures Valid() && |bitDiffs| == |old(bitDiffs)| && (exists_ <==> k in old(keys).Values)
      ensures exists_ || !ok ==> keys == old(keys) && Sl() == old(Sl())
      ensures ok ==> i in keys && keys[i] == k && (!exists_ ==> i !in old(keys) && keys == old(keys)[i := k])
      ensures exists_ ==> ok
      ensures !ok ==> BucketFull(Lay(), Sl(), Base(Lay(), digest, k))
      ensures ok && !exists_ ==> !BucketFull(Lay(), old(Sl()), Base(Lay(), digest, k))
    {
      hide Placed, Base, Xor, Shr, Pow2, BucketFull, Fits, NoTwins, Take, BucketOf;
      ghost var s := Sl();
      var bi := BaseIndexForKey(k);
      var mi;
      mi, exists_ := SearchBase(bi, k);
      if exists_ {
        i, ok := Xor(bi, mi), true;
        return;
      }
      PlacedSized(Lay(), s, keys, digest);
      var at, fi;
      at, fi, ok := SearchFreeIndex(bi, k);
      i := Xor(bi, fi);
      if ok {
        KeyAdded(Lay(), s, keys, digest, k, bi, fi);
        SetDiff(i, bi, fi);
        nElts := nElts + 1;
        keys := keys[i := k];
      }
    }

    // The slot of the key, which the owner then stores there.  Without one, some
    // seed has to be lucky for all keys and the new one.
    method Set(k: K, seeds: seq<nat>) returns (i: nat, exists_: bool, done: bool)
      requires Valid()
      modifies this
      ensures done ==> Valid() && i in keys && keys[i] == k && (exists_ <==> k in old(keys).Values)
      ensures done && exists_ ==> keys == old(keys) && Lay() == old(Lay()) && Sl() == old(Sl())
      ensures done && !exists_ ==> keys.Values == old(keys).Values + {k} && |keys| == |old(keys)| + 1
      ensures done && !exists_ && cap == old(cap) ==> i !in old(keys) && keys == old(keys)[i := k]
      ensures cap != old(cap) || !done ==> old(Crowded(Lay(), Sl(), digest, k))
      ensures done <==> || k in old(keys).Values || !old(Crowded(Lay(), Sl(), digest, k))
                        || !NoneLucky(old(cap), seeds, 0, |seeds|, digest, old(keys).Values + {k})
    {
      hide Placed, Base, Moved, BucketFull, NoTwins, Attempt, CapAt, Lucky, NoneLucky;
      i, exists_, done := 0, false, false;
      ValidBefore(Lay(), Sl(), keys, digest, Empty());
      FirstCap(cap);
      ghost var ks := keys.Values + {k};
      var used := 0;
      NoSeeds(cap, seeds, 0, digest, ks);
      while true
        invariant Valid() && used <= |seeds| && keys.Values == old(keys).Values && |keys| == |old(keys)|
        invariant if used == 0 then keys == old(keys) && Lay() == old(Lay()) && Sl() == old(Sl())
                  else k !in keys.Values && Crowded(old(Lay()), old(Sl()), digest, k) && !Empty()
                       && Lay() == Attempt(old(cap), used - 1, seeds[used - 1]) && cap > old(cap)
        invariant cap == CapAt(old(cap), used)
        invariant NoneLucky(old(cap), seeds, 0, if used == 0 then 0 else used - 1, digest, ks)
        invariant !exists_ && !done && cap >= old(cap)
        decreases |seeds| - used
      {
        if !Empty() {
          ghost var before := keys;
          i, exists_, done := SetInBucket(k);
          if done {
            if !exists_ {
              AddOne(before, i, k);
              PlacedLucky(Lay(), Sl(), keys, digest);
              if used > 0 {
                SomeLucky(old(cap), seeds, used - 1, digest, ks);
              }
            }
            return;
          }
          FullUnlucky(Lay(), Sl(), keys, digest, ks, k);
          if used > 0 {
            OneMoreUnlucky(old(cap), seeds, used - 1, digest, ks);
          }
        }
        var ok;
        used, ok := GrowFor(k, seeds, used, old(cap), old(keys));
        if !ok {
          return;
        }
      }
    }

    // Grows once more.  cap0 and keys0 are from before the first time, k the key that
    // is still without a slot.
    method GrowFor(ghost k: K, seeds: seq<nat>, used: nat, ghost cap0: nat, ghost keys0: map<nat, K>) returns (used': nat, ok: bool)
      requires Valid() && used <= |seeds| && cap == CapAt(cap0, used) && k !in keys.Values
      requires keys.Values == keys0.Values && |keys| == |keys0| && NoTwins(keys0)
      requires NoneLucky(cap0, seeds, 0, used, digest, keys0.Values + {k})
      modifies this
      ensures used <= used' <= |seeds|
      ensures ok ==>
                && used < used' && Valid() && !Empty() && cap > old(cap) && cap == CapAt(cap0, used') && keys.Values == keys0.Values && |keys| == |keys0|
                && Lay() == Attempt(cap0, used' - 1, seeds[used' - 1])
                && NoneLucky(cap0, seeds, 0, used' - 1, digest, keys0.Values + {k})
      ensures !ok ==> NoneLucky(cap0, seeds, 0, |seeds|, digest, keys0.Values + {k})
    {
      hide Placed, Moved, NoTwins, Attempt, CapAt, Lucky, NoneLucky, LuckyAt;
      used', ok := GrowAndCopy(seeds, used);
      MoreUnlucky(cap0, seeds, used, if ok then used' - 1 else used', digest, keys0.Values, k);
      if ok {
        AttemptMore(cap0, used, used' - 1 - used, seeds[used' - 1]);
        PlacedSized(Lay(), Sl(), keys, digest);
        SameCount(keys, keys0);
      }
    }
  }
}

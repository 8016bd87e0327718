// Slots of the hash index: a key sits at its base index with some low bits
// flipped, inside the bucket of the base index.
module HashSlots {
  import opened Caps

  // ---- bits

  // Exclusive or of the binary digits.
  function Xor(a: nat, b: nat): nat {
    if a == 0 && b == 0 then 0 else 2 * Xor(a / 2, b / 2) + (a % 2 + b % 2) % 2
  }

  lemma XorStep(a: nat, d: nat)
    ensures Xor(a, d) / 2 == Xor(a / 2, d / 2) && Xor(a, d) % 2 == (a % 2 + d % 2) % 2
  {
    assert Xor(0, 0) == 0;
  }

  lemma {:induction false} XorTwice(a: nat, d: nat)
    ensures Xor(Xor(a, d), d) == a
    decreases a + d
  {
    hide Xor;
    XorStep(a, d);
    XorStep(Xor(a, d), d);
    if a != 0 || d != 0 {
      XorTwice(a / 2, d / 2);
    } else {
      XorZero(0);
    }
  }

  lemma {:induction false} XorSwap(a: nat, b: nat)
    ensures Xor(a, b) == Xor(b, a)
  {
    if a != 0 || b != 0 {
      XorSwap(a / 2, b / 2);
    }
  }

  lemma XorInjective(a: nat, d: nat, e: nat)
    requires Xor(a, d) == Xor(a, e)
    ensures d == e
  {
    XorSwap(a, d);
    XorSwap(a, e);
    XorTwice(d, a);
    XorTwice(e, a);
  }

  lemma {:induction false} XorZero(a: nat)
    ensures Xor(a, 0) == a && Xor(a, a) == 0
  {
    if a != 0 {
      XorZero(a / 2);
    }
  }

  // Flipping bits below bit k stays in the aligned bucket of 2^k.
  lemma {:induction false} XorStays(a: nat, d: nat, k: nat)
    requires d < Pow2(k)
    ensures Shr(Xor(a, d), k) == Shr(a, k)
  {
    if k == 0 {
      XorZero(a);
    } else if a != 0 || d != 0 {
      XorStays(a / 2, d / 2, k - 1);
    }
  }

  // Any two slots of one bucket differ by bits below bit k: every slot of the
  // bucket is probed.
  lemma {:induction false} XorReaches(a: nat, i: nat, k: nat)
    requires Shr(a, k) == Shr(i, k)
    ensures Xor(a, i) < Pow2(k) && Xor(a, Xor(a, i)) == i
  {
    XorSwap(a, i);
    XorSwap(a, Xor(a, i));
    XorTwice(i, a);
    if k == 0 {
      XorZero(a);
    } else {
      XorReaches(a / 2, i / 2, k - 1);
    }
  }

  lemma {:induction false} ShrBelow(x: nat, n: nat, k: nat)
    ensures x < n * Pow2(k) <==> Shr(x, k) < n
  {
    if k > 0 {
      ShrBelow(x / 2, n, k - 1);
      assert n * Pow2(k) == 2 * (n * Pow2(k - 1));
    }
  }

  lemma {:induction false} ShrOfMultiple(n: nat, k: nat)
    ensures Shr(n * Pow2(k), k) == n
  {
    hide Shr, Pow2;
    if k > 0 {
      ShrOfMultiple(n, k - 1);
      ShrDouble(n, k - 1);
    } else {
      ShrZero(n);
    }
  }

  lemma ShrZero(n: nat)
    ensures Shr(n * Pow2(0), 0) == n
  {
  }

  lemma ShrDouble(n: nat, k: nat)
    ensures Shr(n * Pow2(k + 1), k + 1) == Shr(n * Pow2(k), k)
  {
    assert n * Pow2(k + 1) == 2 * (n * Pow2(k));
  }

  // ---- the two tables

  // Capacities and bucket size after an allocation; seed is the hash seed.
  datatype Layout = Layout(seed: nat, cap: nat, log2Cap0: nat, log2Cap1: nat, log2Bucket: nat, limit0: nat)

  const MAX_LIMIT: nat := 0xFFFF_FFFF

  // Limits above that of table 0 lead to table 1, if there is one.
  ghost predicate Fits(y: Layout) {
    && y.log2Bucket <= 7 && y.log2Bucket <= y.log2Cap0
    && if y.cap == Pow2(y.log2Cap0) then y.limit0 == MAX_LIMIT
       else y.log2Bucket <= y.log2Cap1 && y.cap == Pow2(y.log2Cap0) + Pow2(y.log2Cap1)
  }

  // Table 1 starts where table 0 ends; limits above limit0 go there.
  function BaseIndex(y: Layout, limit: nat, offset: nat): nat {
    if limit > y.limit0 then Low(offset, y.log2Cap1) + Pow2(y.log2Cap0) else Low(offset, y.log2Cap0)
  }

  function BucketOf(y: Layout, i: nat): nat {
    Shr(i, y.log2Bucket)
  }

  lemma CapIsAligned(y: Layout)
    requires Fits(y)
    ensures y.cap == BucketOf(y, y.cap) * Pow2(y.log2Bucket)
  {
    hide Pow2, Shr;
    var k := y.log2Bucket;
    Pow2Sum(y.log2Cap0 - k, k);
    if y.cap != Pow2(y.log2Cap0) {
      Pow2Sum(y.log2Cap1 - k, k);
      TwoParts(Pow2(y.log2Cap0 - k), Pow2(y.log2Cap1 - k), k);
    } else {
      ShrOfMultiple(Pow2(y.log2Cap0 - k), k);
    }
  }

  lemma TwoParts(a: nat, b: nat, k: nat)
    ensures a * Pow2(k) + b * Pow2(k) == (a + b) * Pow2(k) && Shr(a * Pow2(k) + b * Pow2(k), k) == a + b
  {
    ShrOfMultiple(a + b, k);
  }

  // A base index and all slots of its bucket are in the table.
  lemma SlotInRange(y: Layout, limit: nat, offset: nat, d: nat)
    requires Fits(y) && limit <= MAX_LIMIT && d < Pow2(y.log2Bucket)
    ensures var b := BaseIndex(y, limit, offset);
            && b < y.cap && BucketOf(y, b) < BucketOf(y, y.cap)
            && Xor(b, d) < y.cap && BucketOf(y, Xor(b, d)) == BucketOf(y, b)
  {
    var b, n := BaseIndex(y, limit, offset), BucketOf(y, y.cap);
    XorStays(b, d, y.log2Bucket);
    CapIsAligned(y);
    ShrBelow(b, n, y.log2Bucket);
    ShrBelow(Xor(b, d), n, y.log2Bucket);
  }
}

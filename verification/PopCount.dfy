// Counting the set bits of a 64-bit word by adding up fields of doubling width.
module PopCount {
  import opened Basics
  import opened Caps

  const WORD_LIMIT: nat := 0x1_0000_0000_0000_0000

  function Ones(x: nat): nat {
    if x == 0 then 0 else x % 2 + Ones(x / 2)
  }

  // Bitwise and.
  function And(a: nat, b: nat): nat {
    if a == 0 || b == 0 then 0 else 2 * And(a / 2, b / 2) + (a % 2) * (b % 2)
  }

  // n fields of k bits set, each followed by k bits clear.
  function Fields(k: nat, n: nat): nat {
    if n == 0 then 0 else Pow2(k) - 1 + Pow2(2 * k) * Fields(k, n - 1)
  }

  // Every other field of k bits of x, n of them.
  function Pick(x: nat, k: nat, n: nat): nat
    decreases n
  {
    if n == 0 then 0 else Low(x, k) + Pow2(2 * k) * Pick(Shr(x, 2 * k), k, n - 1)
  }

  // The sum of the lowest n fields of k bits.
  function FieldSum(x: nat, k: nat, n: nat): nat
    decreases n
  {
    if n == 0 then 0 else Low(x, k) + FieldSum(Shr(x, k), k, n - 1)
  }

  // ---- what masking picks

  lemma AndStep(a: nat, b: nat)
    ensures And(a, b) / 2 == And(a / 2, b / 2) && And(a, b) % 2 == (a % 2) * (b % 2)
  {
    if a == 0 || b == 0 {
      assert And(a / 2, b / 2) == 0;
      assert (a % 2) * (b % 2) == 0;
    } else {
      assert 0 <= (a % 2) * (b % 2) <= 1;
    }
  }

  lemma {:induction false} AndZero(a: nat)
    ensures And(a, 0) == 0
  {
  }

  // The lowest k bits, under a mask of k ones below j clear bits and then m.
  lemma {:induction false} AndFields(x: nat, k: nat, j: nat, m: nat)
    requires k <= j
    ensures And(x, Pow2(k) - 1 + Pow2(j) * m) == Low(x, k) + Pow2(j) * And(Shr(x, j), m)
  {
    hide And, Low, Shr, Pow2;
    var b := Pow2(k) - 1 + Pow2(j) * m;
    if j == 0 {
      LowZero(x);
    } else {
      AndStep(x, b);
      HalfMask(k, j, m);
      AndFields(x / 2, if k == 0 then 0 else k - 1, j - 1, m);
      LowStep(x, k, j);
      assert Pow2(j) * And(Shr(x, j), m) == 2 * (Pow2(j - 1) * And(Shr(x / 2, j - 1), m)) by {
        Twice(j, And(Shr(x, j), m));
      }
    }
  }

  lemma LowZero(x: nat)
    ensures Low(x, 0) == 0 && Shr(x, 0) == x && Pow2(0) == 1
  {
  }

  lemma Twice(j: nat, y: nat)
    requires j > 0
    ensures Pow2(j) * y == 2 * (Pow2(j - 1) * y)
  {
  }

  lemma LowStep(x: nat, k: nat, j: nat)
    requires k <= j && j > 0
    ensures Shr(x, j) == Shr(x / 2, j - 1)
    ensures k > 0 ==> Low(x, k) == 2 * Low(x / 2, k - 1) + x % 2
    ensures k == 0 ==> Low(x, k) == 0 && Low(x / 2, 0) == 0
  {
  }

  lemma HalfMask(k: nat, j: nat, m: nat)
    requires k <= j && j > 0
    ensures var b := Pow2(k) - 1 + Pow2(j) * m;
            && b / 2 == (if k == 0 then Pow2(0) - 1 else Pow2(k - 1) - 1) + Pow2(j - 1) * m
            && b % 2 == if k == 0 then 0 else 1
  {
    Twice(j, m);
  }

  lemma {:induction false} AndPicks(x: nat, k: nat, n: nat)
    ensures And(x, Fields(k, n)) == Pick(x, k, n)
    decreases n
  {
    hide And, Low, Shr, Pow2;
    if n == 0 {
      AndZero(x);
    } else {
      AndFields(x, k, 2 * k, Fields(k, n - 1));
      AndPicks(Shr(x, 2 * k), k, n - 1);
    }
  }

  // Masking with the fields moved up by k, and moving down again.
  lemma AndMoved(x: nat, k: nat, m: nat)
    ensures And(x, Pow2(k) * m) == Pow2(k) * And(Shr(x, k), m)
    ensures And(x, Pow2(k) * m) / Pow2(k) == And(Shr(x, k), m)
  {
    hide And, Shr;
    AndFields(x, 0, k, m);
    assert Low(x, 0) == 0 && Pow2(0) == 1;
    QuotientUnique(Pow2(k) * And(Shr(x, k), m), Pow2(k), And(Shr(x, k), m), 0);
  }

  // ---- one round adds neighbouring fields

  function Pairs(x: nat, k: nat, n: nat): nat {
    Pick(x, k, n) + Pick(Shr(x, k), k, n)
  }

  lemma {:induction false} ShrTwice(x: nat, a: nat, b: nat)
    ensures Shr(Shr(x, a), b) == Shr(x, a + b)
    decreases a
  {
    if a > 0 {
      ShrTwice(x / 2, a - 1, b);
    }
  }

  // Putting s below z and taking both out again.
  lemma {:induction false} PutTogether(s: nat, z: nat, k: nat)
    requires s < Pow2(k)
    ensures Low(s + Pow2(k) * z, k) == s && Shr(s + Pow2(k) * z, k) == z
    decreases k
  {
    if k > 0 {
      Twice(k, z);
      PutTogether(s / 2, z, k - 1);
      assert (s + Pow2(k) * z) / 2 == s / 2 + Pow2(k - 1) * z && (s + Pow2(k) * z) % 2 == s % 2;
    }
  }

  lemma PairsStep(x: nat, k: nat, n: nat)
    requires k > 0 && n > 0
    ensures var s := Low(x, k) + Low(Shr(x, k), k);
            s < Pow2(2 * k) && Pairs(x, k, n) == s + Pow2(2 * k) * Pairs(Shr(x, 2 * k), k, n - 1)
  {
    hide Low, Shr, Pow2, Pick;
    ShrTwice(x, k, 2 * k);
    ShrTwice(x, 2 * k, k);
    assert k + 2 * k == 2 * k + k;
    PairFits(k, Low(x, k), Low(Shr(x, k), k));
    var a, b := Pick(Shr(x, 2 * k), k, n - 1), Pick(Shr(Shr(x, 2 * k), k), k, n - 1);
    AddUp(Low(x, k), Low(Shr(x, k), k), Pow2(2 * k), a, b);
    PickStep(x, k, n);
    PickStep(Shr(x, k), k, n);
  }

  lemma AddUp(s: nat, t: nat, p: nat, a: nat, b: nat)
    ensures s + p * a + (t + p * b) == s + t + p * (a + b)
  {
  }

  lemma PickStep(x: nat, k: nat, n: nat)
    requires n > 0
    ensures Pick(x, k, n) == Low(x, k) + Pow2(2 * k) * Pick(Shr(x, 2 * k), k, n - 1)
  {
  }

  lemma PairFits(k: nat, a: nat, b: nat)
    requires k > 0 && a < Pow2(k) && b < Pow2(k)
    ensures a + b < Pow2(2 * k)
  {
    Pow2Grows(k, 2 * k);
  }

  // The sum over half as many fields of twice the width is the same.
  lemma {:induction false} PairsKeepSum(x: nat, k: nat, n: nat)
    requires k > 0
    ensures FieldSum(Pairs(x, k, n), 2 * k, n) == FieldSum(x, k, 2 * n)
    decreases n
  {
    hide Low, Shr, Pow2, Pairs;
    if n > 0 {
      PairsStep(x, k, n);
      var y := Shr(x, 2 * k);
      PutTogether(Low(x, k) + Low(Shr(x, k), k), Pairs(y, k, n - 1), 2 * k);
      PairsKeepSum(y, k, n - 1);
      ShrTwice(x, k, k);
      assert 2 * n - 1 - 1 == 2 * (n - 1);
      assert FieldSum(x, k, 2 * n) == Low(x, k) + FieldSum(Shr(x, k), k, 2 * n - 1);
      assert FieldSum(Shr(x, k), k, 2 * n - 1) == Low(Shr(x, k), k) + FieldSum(y, k, 2 * n - 2);
    }
  }

  lemma {:induction false} PairsBound(x: nat, k: nat, n: nat)
    requires k > 0
    ensures Pairs(x, k, n) < Pow2(2 * k * n)
    decreases n
  {
    hide Low, Shr, Pow2, Pairs;
    if n > 0 {
      PairsStep(x, k, n);
      PairsBound(Shr(x, 2 * k), k, n - 1);
      Pow2Sum(2 * k, 2 * k * (n - 1));
      assert 2 * k + 2 * k * (n - 1) == 2 * k * n;
      Stack(Low(x, k) + Low(Shr(x, k), k), Pow2(2 * k), Pairs(Shr(x, 2 * k), k, n - 1), Pow2(2 * k * (n - 1)));
    } else {
      NoPairs(x, k);
    }
  }

  lemma NoPairs(x: nat, k: nat)
    ensures Pairs(x, k, 0) == 0 && Pow2(2 * k * 0) == 1
  {
  }

  lemma Stack(s: nat, p: nat, z: nat, q: nat)
    requires s < p && z < q
    ensures s + p * z < p * q
  {
    assert p * q == p * (q - 1) + p;
    assert p * z <= p * (q - 1);
  }

  // One bit to a field: the sum is the number of set bits.
  lemma {:induction false} BitsSum(x: nat, n: nat)
    requires x < Pow2(n)
    ensures FieldSum(x, 1, n) == Ones(x) <= n
    decreases n
  {
    if n > 0 {
      assert Low(x, 1) == x % 2 && Shr(x, 1) == x / 2 by {
        assert Low(x / 2, 0) == 0 && Shr(x / 2, 0) == x / 2;
      }
      BitsSum(x / 2, n - 1);
    }
  }

  // ---- the constants

  lemma {:induction false} FieldsDouble(k: nat, m: nat, n: nat)
    ensures Fields(k, m + n) == Fields(k, m) + Pow2(2 * k * m) * Fields(k, n)
    decreases m
  {
    hide Pow2;
    if m == 0 {
      assert 2 * k * 0 == 0;
      NoPairs(0, k);
    } else {
      FieldsDouble(k, m - 1, n);
      Pow2Sum(2 * k, 2 * k * (m - 1));
      assert 2 * k + 2 * k * (m - 1) == 2 * k * m;
      Nest(Pow2(2 * k), Fields(k, m - 1), Pow2(2 * k * (m - 1)), Fields(k, n));
      assert m + n - 1 == m - 1 + n;
    }
  }

  lemma Nest(p: nat, a: nat, q: nat, b: nat)
    ensures p * (a + q * b) == p * a + p * q * b
  {
    assert p * (q * b) == p * q * b;
  }

  lemma Constants()
    ensures Fields(1, 32) == 0x5555555555555555
    ensures Fields(2, 16) == 0x3333333333333333
    ensures Fields(4, 8) == 0x0F0F0F0F0F0F0F0F
  {
    Pow2Values();
    assert Fields(1, 1) == 1 && Fields(2, 1) == 3 && Fields(4, 1) == 15;
    FieldsDouble(1, 1, 1);
    FieldsDouble(1, 2, 2);
    FieldsDouble(1, 4, 4);
    FieldsDouble(2, 1, 1);
    FieldsDouble(2, 2, 2);
    FieldsDouble(4, 1, 1);
    assert Fields(1, 8) == 0x5555 && Fields(2, 4) == 0x3333 && Fields(4, 2) == 0x0F0F;
    FieldsDouble(1, 8, 8);
    FieldsDouble(2, 4, 4);
    FieldsDouble(4, 2, 2);
    assert Fields(1, 16) == 0x55555555 && Fields(2, 8) == 0x33333333 && Fields(4, 4) == 0x0F0F0F0F;
    FieldsDouble(1, 16, 16);
    FieldsDouble(2, 8, 8);
    FieldsDouble(4, 4, 4);
  }

  // ---- the bytes added up by one multiplication

  // The product, cut after the top byte: sums of the first bytes below it, of the
  // last ones above.
  lemma ByteProduct(b0: nat, b1: nat, b2: nat, b3: nat, b4: nat, b5: nat, b6: nat, b7: nat)
    ensures var x := b0 + 0x100 * b1 + 0x10000 * b2 + 0x1000000 * b3 + 0x100000000 * b4 + 0x10000000000 * b5
                     + 0x1000000000000 * b6 + 0x100000000000000 * b7;
            var s1 := b0 + b1;
            var s2 := s1 + b2;
            var s3 := s2 + b3;
            var s4 := s3 + b4;
            var s5 := s4 + b5;
            var s6 := s5 + b6;
            var s7 := s6 + b7;
            x * 0x0101010101010101 ==
              (s7 - b0 + 0x100 * (s7 - s1) + 0x10000 * (s7 - s2) + 0x1000000 * (s7 - s3) + 0x100000000 * (s7 - s4)
               + 0x10000000000 * (s7 - s5) + 0x1000000000000 * (s7 - s6)) * WORD_LIMIT
              + (0x100000000000000 * s7 + b0 + 0x100 * s1 + 0x10000 * s2 + 0x1000000 * s3 + 0x100000000 * s4
                 + 0x10000000000 * s5 + 0x1000000000000 * s6)
  {
  }

  lemma ByteSum(b0: nat, b1: nat, b2: nat, b3: nat, b4: nat, b5: nat, b6: nat, b7: nat)
    requires b0 + b1 + b2 + b3 + b4 + b5 + b6 + b7 <= 64
    ensures var x := b0 + 0x100 * (b1 + 0x100 * (b2 + 0x100 * (b3 + 0x100 * (b4 + 0x100 * (b5 + 0x100 * (b6 + 0x100 * b7))))));
            (x * 0x0101010101010101) % WORD_LIMIT / 0x100000000000000 == b0 + b1 + b2 + b3 + b4 + b5 + b6 + b7
  {
    var x := b0 + 0x100 * (b1 + 0x100 * (b2 + 0x100 * (b3 + 0x100 * (b4 + 0x100 * (b5 + 0x100 * (b6 + 0x100 * b7))))));
    var s1 := b0 + b1;
    var s2 := s1 + b2;
    var s3 := s2 + b3;
    var s4 := s3 + b4;
    var s5 := s4 + b5;
    var s6 := s5 + b6;
    var s7 := s6 + b7;
    ByteProduct(b0, b1, b2, b3, b4, b5, b6, b7);
    TopByte(x * 0x0101010101010101,
            s7 - b0 + 0x100 * (s7 - s1) + 0x10000 * (s7 - s2) + 0x1000000 * (s7 - s3) + 0x100000000 * (s7 - s4)
            + 0x10000000000 * (s7 - s5) + 0x1000000000000 * (s7 - s6), s7,
            b0 + 0x100 * s1 + 0x10000 * s2 + 0x1000000 * s3 + 0x100000000 * s4 + 0x10000000000 * s5 + 0x1000000000000 * s6);
  }

  lemma TopByte(p: nat, high: nat, top: nat, low: nat)
    requires p == high * WORD_LIMIT + (0x100000000000000 * top + low) && top < 0x100 && low < 0x100000000000000
    ensures p % WORD_LIMIT / 0x100000000000000 == top
  {
    QuotientUnique(p, WORD_LIMIT, high, 0x100000000000000 * top + low);
    QuotientUnique(0x100000000000000 * top + low, 0x100000000000000, top, low);
  }

  lemma SplitByte(x: nat)
    ensures x == Low(x, 8) + 0x100 * Shr(x, 8)
  {
    Pow2Values();
    Reassemble(x, 8);
  }

  lemma {:induction false} Reassemble(x: nat, k: nat)
    ensures x == Low(x, k) + Pow2(k) * Shr(x, k)
    decreases k
  {
    if k > 0 {
      Reassemble(x / 2, k - 1);
      Twice(k, Shr(x, k));
    }
  }

  lemma Multiply(x: nat)
    requires x < WORD_LIMIT && FieldSum(x, 8, 8) <= 64
    ensures (x * 0x0101010101010101) % WORD_LIMIT / 0x100000000000000 == FieldSum(x, 8, 8)
  {
    hide Low, Shr;
    var x1, x2, x3, x4 := Shr(x, 8), Shr(Shr(x, 8), 8), Shr(Shr(Shr(x, 8), 8), 8), Shr(Shr(Shr(Shr(x, 8), 8), 8), 8);
    var x5, x6 := Shr(x4, 8), Shr(Shr(x4, 8), 8);
    var x7, x8 := Shr(x6, 8), Shr(Shr(x6, 8), 8);
    SplitByte(x);
    SplitByte(x1);
    SplitByte(x2);
    SplitByte(x3);
    SplitByte(x4);
    SplitByte(x5);
    SplitByte(x6);
    SplitByte(x7);
    assert x8 == 0;
    assert FieldSum(x4, 8, 4) == Low(x4, 8) + Low(x5, 8) + Low(x6, 8) + Low(x7, 8);
    assert FieldSum(x, 8, 8) == Low(x, 8) + Low(x1, 8) + Low(x2, 8) + Low(x3, 8) + FieldSum(x4, 8, 4);
    ByteSum(Low(x, 8), Low(x1, 8), Low(x2, 8), Low(x3, 8), Low(x4, 8), Low(x5, 8), Low(x6, 8), Low(x7, 8));
  }

  lemma RoundIs(x: nat, k: nat, n: nat, m: nat)
    requires m == Fields(k, n)
    ensures And(x, m) + And(x, Pow2(k) * m) / Pow2(k) == Pairs(x, k, n)
  {
    AndPicks(x, k, n);
    AndMoved(x, k, m);
    AndPicks(Shr(x, k), k, n);
  }

  lemma Three(y: nat)
    requires y < WORD_LIMIT
    ensures var x := Pairs(Pairs(Pairs(y, 1, 32), 2, 16), 4, 8);
            x < WORD_LIMIT && FieldSum(x, 8, 8) == Ones(y) <= 64
  {
    hide Pairs, FieldSum, Ones, Pow2;
    Pow2Values();
    Pow2Sum(32, 32);
    BitsSum(y, 64);
    PairsKeepSum(y, 1, 32);
    PairsKeepSum(Pairs(y, 1, 32), 2, 16);
    PairsKeepSum(Pairs(Pairs(y, 1, 32), 2, 16), 4, 8);
    PairsBound(Pairs(Pairs(y, 1, 32), 2, 16), 4, 8);
  }

  // The number of set bits of any 64-bit word.
  method NSetBits(y: nat) returns (n: nat)
    requires y < WORD_LIMIT
    ensures n == Ones(y) <= 64
  {
    hide And, Pairs, FieldSum, Ones, Fields, Pow2;
    Constants();
    Pow2Values();
    var x := y;
    RoundIs(x, 1, 32, 0x5555555555555555);
    x := And(x, 0x5555555555555555) + And(x, 0xAAAAAAAAAAAAAAAA) / 2;
    RoundIs(x, 2, 16, 0x3333333333333333);
    x := And(x, 0x3333333333333333) + And(x, 0xCCCCCCCCCCCCCCCC) / 4;
    RoundIs(x, 4, 8, 0x0F0F0F0F0F0F0F0F);
    x := And(x, 0x0F0F0F0F0F0F0F0F) + And(x, 0xF0F0F0F0F0F0F0F0) / 16;
    Three(y);
    Multiply(x);
    x := x * 0x0101010101010101 % WORD_LIMIT;
    n := x / 0x100000000000000 % 0x100;
  }
}

// Powers of two, logarithms, and capacities of the form 2^i + 2^j.
module Caps {
  import opened Basics

  function Pow2(k: nat): (p: nat)
    ensures p > 0
  {
    if k == 0 then 1 else 2 * Pow2(k - 1)
  }

  lemma {:induction false} Pow2Sum(a: nat, b: nat)
    ensures Pow2(a + b) == Pow2(a) * Pow2(b)
  {
    if a > 0 {
      Pow2Sum(a - 1, b);
    }
  }

  lemma {:induction false} Pow2Grows(a: nat, b: nat)
    requires a <= b
    ensures Pow2(a) <= Pow2(b) && (a < b ==> 2 * Pow2(a) <= Pow2(b))
  {
    if a < b {
      Pow2Grows(a, b - 1);
    }
  }

  // ---- parts of a number

  // The digits above the lowest k, and the lowest k.
  function Shr(x: nat, k: nat): nat {
    if k == 0 then x else Shr(x / 2, k - 1)
  }

  function Low(x: nat, k: nat): (r: nat)
    ensures r < Pow2(k)
  {
    if k == 0 then 0 else 2 * Low(x / 2, k - 1) + x % 2
  }

  // ---- logarithms

  function FloorLog2(n: nat): nat
    requires n > 0
  {
    if n == 1 then 0 else 1 + FloorLog2(n / 2)
  }

  function CeilLog2(n: nat): nat
    requires n > 0
  {
    FloorLog2(n) + if n > Pow2(FloorLog2(n)) then 1 else 0
  }

  lemma {:induction false} FloorLog2Bounds(n: nat)
    requires n > 0
    ensures Pow2(FloorLog2(n)) <= n < 2 * Pow2(FloorLog2(n))
  {
    if n > 1 {
      FloorLog2Bounds(n / 2);
    }
  }

  lemma {:induction false} FloorLog2Unique(n: nat, k: nat)
    requires n > 0 && Pow2(k) <= n < 2 * Pow2(k)
    ensures FloorLog2(n) == k
  {
    FloorLog2Bounds(n);
    if FloorLog2(n) < k {
      Pow2Grows(FloorLog2(n), k);
    } else if k < FloorLog2(n) {
      Pow2Grows(k, FloorLog2(n));
    }
  }

  // Position of the highest set bit plus one.
  function Length(x: nat): nat {
    if x == 0 then 0 else 1 + FloorLog2(x)
  }

  lemma LengthHalf(x: nat)
    ensures Length(x) == if x == 0 then 0 else 1 + Length(x / 2)
  {
  }

  lemma LengthBounds(x: nat)
    ensures x > 0 ==> Length(x) > 0 && Pow2(Length(x) - 1) <= x < 2 * Pow2(Length(x) - 1)
  {
    if x > 0 {
      FloorLog2Bounds(x);
    }
  }

  // Number of leading zeros of a 64-bit word, by halving.
  method NLeadingZeros(word: nat) returns (n: nat)
    requires word < 0x1_0000_0000_0000_0000
    ensures n == 64 - Length(word)
    ensures word > 0 ==> n < 64 && Pow2(63 - n) <= word < 2 * Pow2(63 - n)
  {
    hide Length, Pow2;
    LengthBounds(word);
    Pow2Values();
    Pow2Sum(32, 32);
    LengthBound(word, 64);
    n := 64;
    var x := word;
    n, x := SkipZeros(n, x, 32, 0x1_0000_0000);
    n, x := SkipZeros(n, x, 16, 0x1_0000);
    n, x := SkipZeros(n, x, 8, 0x100);
    n, x := SkipZeros(n, x, 4, 0x10);
    n, x := SkipZeros(n, x, 2, 4);
    SmallLength(x);
    var y := x / 2;
    if y != 0 {
      return n - 2;
    }
    n := n - x;
  }

  // If a bit is set above the lowest k, go on with those above.
  method SkipZeros(n: nat, x: nat, k: nat, p: nat) returns (n': nat, x': nat)
    requires p > 0 && p == Pow2(k) && x < p * p && Length(x) <= n
    ensures Length(x') <= n' <= n && n' - Length(x') == n - Length(x) && x' < p && n' + k >= n
  {
    hide Length, Pow2;
    n', x' := n, x;
    var y := x / p;
    DivBelow(x, p);
    if y != 0 {
      ShiftLength(x, k, p);
      n', x' := n - k, y;
    }
  }

  lemma DivBelow(x: nat, p: nat)
    requires p > 0 && x < p * p
    ensures x / p < p && (x / p == 0 ==> x < p)
  {
    assert x / p * p + x % p == x;
    MulSign(x / p - p, p);
    assert (x / p - p) * p == x / p * p - p * p;
    if x / p == 0 {
      assert x / p * p == 0;
    }
  }

  lemma {:induction false} LengthBound(x: nat, k: nat)
    requires x < Pow2(k)
    ensures Length(x) <= k
  {
    LengthHalf(x);
    if k > 0 {
      LengthBound(x / 2, k - 1);
    }
  }

  lemma SmallLength(x: nat)
    requires x < 4
    ensures Length(x) == if x < 2 then x else 2
  {
    LengthHalf(x);
    LengthHalf(1);
  }

  lemma {:induction false} ShiftLength(x: nat, k: nat, p: nat)
    requires p == Pow2(k)
    ensures x / p > 0 ==> Length(x) == k + Length(x / p)
  {
    if k > 0 && x / p > 0 {
      var q := Pow2(k - 1);
      LengthHalf(x);
      assert x / p == x / 2 / q by { HalfThenRest(x, q); }
      ShiftLength(x / 2, k - 1, q);
    }
  }

  lemma HalfThenRest(x: nat, q: nat)
    requires q > 0
    ensures x / (2 * q) == x / 2 / q
  {
    var r := x / 2 / q;
    assert x / 2 == r * q + x / 2 % q;
    assert x == 2 * (x / 2) + x % 2;
    assert 2 * (r * q) == r * (2 * q);
    var rest := 2 * (x / 2 % q) + x % 2;
    assert x == r * (2 * q) + rest && 0 <= rest < 2 * q;
    QuotientUnique(x, 2 * q, r, rest);
  }

  lemma QuotientUnique(x: nat, d: nat, q: nat, r: nat)
    requires d > 0 && x == q * d + r && r < d
    ensures x / d == q && x % d == r
  {
    assert x / d * d + x % d == x;
    assert (x / d - q) * d == x / d * d - q * d;
    MulSign(x / d - q, d);
  }

  lemma MulSign(e: int, d: nat)
    ensures e >= 1 ==> e * d >= d
    ensures e <= -1 ==> e * d + d <= 0
  {
    if e >= 1 {
      assert e * d == (e - 1) * d + d && (e - 1) * d >= 0;
    }
    if e <= -1 {
      assert e * d == -((-e - 1) * d) - d && (-e - 1) * d >= 0;
    }
  }

  lemma Pow2Values()
    ensures Pow2(1) == 2 && Pow2(2) == 4 && Pow2(3) == 8 && Pow2(4) == 0x10 && Pow2(7) == 0x80 && Pow2(8) == 0x100
    ensures Pow2(16) == 0x1_0000 && Pow2(32) == 0x1_0000_0000
  {
    assert Pow2(3) == 8 && Pow2(5) == 0x20 && Pow2(7) == 0x80;
    Pow2Sum(8, 8);
    Pow2Sum(16, 16);
  }

  // ---- capacities

  function CapOf(i: nat, j: Option<nat>): nat {
    Pow2(i) + if j.Some? then Pow2(j.value) else 0
  }

  // Multiples of 8, rounded up to a power of two or a sum of two.
  function Round(n: nat): nat {
    var w := (n + 7) / 8 * 8;
    if w == 0 || w == Pow2(FloorLog2(w)) then w
    else
      var m0 := Pow2(FloorLog2(w));
      FloorLog2Bounds(w);
      m0 + Pow2(CeilLog2(w - m0))
  }

  function LowBit(c: nat): nat
    requires c > 0
  {
    if c % 2 == 1 then 1 else 2 * LowBit(c / 2)
  }

  lemma {:induction false} LowBitBounds(c: nat)
    requires c > 0
    ensures 0 < LowBit(c) <= c
  {
    if c % 2 == 0 {
      LowBitBounds(c / 2);
    }
  }

  // The two exponents of a capacity; the second only for a sum.
  function Log2(c: nat): (nat, Option<nat>)
    requires c > 0
  {
    LowBitBounds(c);
    var j := LowBit(c);
    var i := c - j;
    if i == 0 then (FloorLog2(j), None) else (FloorLog2(i), Some(FloorLog2(j)))
  }

  lemma LowBitTwice(c: nat)
    requires c > 0
    ensures LowBit(2 * c) == 2 * LowBit(c)
  {
    assert 2 * c % 2 == 0 && 2 * c / 2 == c;
  }

  lemma LowBitOdd(c: nat)
    ensures LowBit(2 * c + 1) == 1
  {
  }

  lemma CapHalved(i: nat, j: Option<nat>)
    requires i > 0 && (j.Some? ==> 0 < j.value < i)
    ensures CapOf(i, j) == 2 * CapOf(i - 1, if j.Some? then Some(j.value - 1) else None) && CapOf(i - 1, if j.Some? then Some(j.value - 1) else None) > 0
  {
  }

  lemma {:induction false} LowBitOf(i: nat, j: Option<nat>)
    requires j.Some? ==> j.value < i
    ensures LowBit(CapOf(i, j)) == Pow2(if j.Some? then j.value else i)
  {
    if j.Some? && j.value == 0 {
      assert CapOf(i, j) == 2 * Pow2(i - 1) + 1;
      LowBitOdd(Pow2(i - 1));
    } else if i > 0 {
      hide LowBit;
      var j' := if j.Some? then Some(j.value - 1) else None;
      CapHalved(i, j);
      LowBitTwice(CapOf(i - 1, j'));
      LowBitOf(i - 1, j');
    }
  }

  lemma Log2OfCap(i: nat, j: Option<nat>)
    requires j.Some? ==> j.value < i
    ensures Log2(CapOf(i, j)) == (i, j)
  {
    LowBitOf(i, j);
    FloorLog2Unique(Pow2(i), i);
    if j.Some? {
      FloorLog2Unique(Pow2(j.value), j.value);
    }
  }

  // What Round gives: a capacity of at least 8.
  ghost predicate IsCap(c: nat) {
    c > 0 && var (i, j) := Log2(c); CapOf(i, j) == c && i >= 3 && (j.Some? ==> j.value < i)
  }

  // Rounding never goes down, and gives a capacity of at least 8.
  lemma RoundIsCap(n: nat) returns (i: nat, j: Option<nat>)
    requires n > 0
    ensures Round(n) == CapOf(i, j) && (j.Some? ==> j.value < i) && i >= 3 && n <= Round(n)
    ensures Log2(Round(n)) == (i, j) && IsCap(Round(n))
  {
    var w := (n + 7) / 8 * 8;
    assert w >= 8 && w >= n;
    FloorLog2Bounds(w);
    i := FloorLog2(w);
    j := None;
    Pow2Values();
    if i < 3 {
      Pow2Grows(i, 2);
    }
    if w != Pow2(i) {
      var m := w - Pow2(i);
      FloorLog2Bounds(m);
      var l1 := CeilLog2(m);
      CeilBelow(m, i);
      if l1 == i {
        i := i + 1;
      } else {
        j := Some(l1);
      }
    }
    Log2OfCap(i, j);
  }

  lemma CeilBelow(m: nat, i: nat)
    requires 0 < m < Pow2(i)
    ensures m <= Pow2(CeilLog2(m)) && CeilLog2(m) <= i
  {
    var l := FloorLog2(m);
    FloorLog2Bounds(m);
    if l >= i {
      Pow2Grows(i, l);
    }
  }

  // No smaller capacity in units of 8 has room for n.
  lemma RoundIsLeast(n: nat, i: nat, j: Option<nat>)
    requires n > 0 && (j.Some? ==> j.value < i) && n <= CapOf(i, j) && CapOf(i, j) % 8 == 0
    ensures Round(n) <= CapOf(i, j) && Round(n) % 8 == 0
  {
    hide CapOf, FloorLog2, CeilLog2;
    var w := (n + 7) / 8 * 8;
    assert w <= CapOf(i, j);
    if w != Pow2(FloorLog2(w)) {
      FloorLog2Bounds(w);
      LeastSum(w, i, j);
      CeilUnits(w);
    }
  }

  // 2^k + 2^l, the power of two below w and the one that makes up the rest.
  lemma LeastSum(w: nat, i: nat, j: Option<nat>)
    requires w > 0 && w > Pow2(FloorLog2(w)) && (j.Some? ==> j.value < i) && w <= CapOf(i, j)
    ensures Pow2(FloorLog2(w)) + Pow2(CeilLog2(w - Pow2(FloorLog2(w)))) <= CapOf(i, j)
  {
    hide FloorLog2, CeilLog2;
    var k := FloorLog2(w);
    FloorLog2Bounds(w);
    CeilBelow(w - Pow2(k), k);
    Pow2Grows(CeilLog2(w - Pow2(k)), k);
    if i < k {
      Pow2Grows(i, k);
      if j.Some? {
        Pow2Grows(j.value, i);
      }
    } else if i > k {
      Pow2Grows(k, i);
    } else {
      CeilLeast(w - Pow2(k), j.value);
    }
  }

  lemma CeilLeast(m: nat, b: nat)
    requires 0 < m <= Pow2(b)
    ensures Pow2(CeilLog2(m)) <= Pow2(b)
  {
    var l := FloorLog2(m);
    FloorLog2Bounds(m);
    if l > b {
      Pow2Grows(b, l);
    } else if m > Pow2(l) {
      Pow2Grows(l, b);
    } else {
      Pow2Grows(l, b);
    }
  }

  lemma CeilUnits(w: nat)
    requires w > 0 && w % 8 == 0 && w > Pow2(FloorLog2(w))
    ensures (Pow2(FloorLog2(w)) + Pow2(CeilLog2(w - Pow2(FloorLog2(w))))) % 8 == 0
  {
    hide FloorLog2, CeilLog2, Pow2;
    FloorLog2Bounds(w);
    AtLeastUnit(w);
    Units(FloorLog2(w));
    var m := w - Pow2(FloorLog2(w));
    AtLeastUnit(m);
    Units(CeilLog2(m));
  }

  lemma AtLeastUnit(m: nat)
    requires m >= 8
    ensures 3 <= FloorLog2(m) <= CeilLog2(m)
  {
    hide FloorLog2;
    var l := FloorLog2(m);
    FloorLog2Bounds(m);
    Pow2Values();
    if l < 3 {
      Pow2Grows(l, 2);
    }
  }

  lemma Units(k: nat)
    requires k >= 3
    ensures Pow2(k) % 8 == 0
  {
    Pow2Values();
    Pow2Sum(k - 3, 3);
  }

  // Growth by about the square root, the eighth root or the sixteenth root of two.
  function NextUnit(c: nat): nat {
    Round(if c < 15 then 15
          else if c < 256 then c * 141421356237309504878 / 100000000000000000000
          else if c < 1024 then c * 109050773266525765919 / 100000000000000000000
          else c * 104427378242741384031 / 100000000000000000000)
  }

  lemma NextUnitGrows(c: nat)
    ensures NextUnit(c) > c && IsCap(NextUnit(c))
  {
    var n := if c < 15 then 15
             else if c < 256 then c * 141421356237309504878 / 100000000000000000000
             else if c < 1024 then c * 109050773266525765919 / 100000000000000000000
             else c * 104427378242741384031 / 100000000000000000000;
    assert n > c;
    var i, j := RoundIsCap(n);
  }

  // How far: the least capacity in units of 8 with that much more room.
  lemma NextUnitIsClose(c: nat, i: nat, j: Option<nat>)
    requires (j.Some? ==> j.value < i) && CapOf(i, j) % 8 == 0
    ensures c < 15 && CapOf(i, j) >= 15 ==> NextUnit(c) <= CapOf(i, j)
    ensures 15 <= c < 256 ==> 100 * NextUnit(c) > 141 * c - 100 && (100 * CapOf(i, j) >= 142 * c ==> NextUnit(c) <= CapOf(i, j))
    ensures 256 <= c < 1024 ==> 1000 * NextUnit(c) > 1090 * c - 1000 && (1000 * CapOf(i, j) >= 1091 * c ==> NextUnit(c) <= CapOf(i, j))
    ensures 1024 <= c ==> 10000 * NextUnit(c) > 10442 * c - 10000 && (10000 * CapOf(i, j) >= 10443 * c ==> NextUnit(c) <= CapOf(i, j))
  {
    hide CapOf, Round;
    var n := if c < 15 then 15
             else if c < 256 then c * 141421356237309504878 / 100000000000000000000
             else if c < 1024 then c * 109050773266525765919 / 100000000000000000000
             else c * 104427378242741384031 / 100000000000000000000;
    assert n >= 15;
    RoundsUp(n);
    if n <= CapOf(i, j) {
      RoundIsLeast(n, i, j);
    }
  }

  lemma RoundsUp(n: nat)
    requires n > 0
    ensures Round(n) >= n
  {
    var i, j := RoundIsCap(n);
  }
}

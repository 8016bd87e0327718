// Sparse arrays: a bitmap of the indices present, and per word the number of
// those before it, so that a present index is mapped to its rank.
module SparseRank {
  import opened Basics
  import opened Caps
  import opened PopCount

  const MAX_INDEX: nat := 0xFFFF_FFFF

  predicate Bit(w: nat, b: nat) {
    Shr(w, b) % 2 == 1
  }

  predicate In(words: seq<nat>, x: nat) {
    x / 64 < |words| && Bit(words[x / 64], x % 64)
  }

  // How many indices below x are present: the rank of x.
  function Rank(words: seq<nat>, x: nat): nat {
    if x == 0 then 0 else Rank(words, x - 1) + if In(words, x - 1) then 1 else 0
  }

  // Set bits of the words before word i.
  function Before(words: seq<nat>, i: nat): nat
    requires i <= |words|
  {
    if i == 0 then 0 else Before(words, i - 1) + Ones(words[i - 1])
  }

  ghost predicate Words(words: seq<nat>) {
    forall i :: 0 <= i < |words| ==> words[i] < WORD_LIMIT
  }

  // ---- bits of one word

  lemma OnesStep(a: nat, b: nat)
    requires b < 2
    ensures Ones(2 * a + b) == Ones(a) + b
  {
  }

  lemma LowStart(w: nat)
    ensures Low(w, 0) == 0 && Shr(w, 0) == w
  {
  }

  lemma NextBit(w: nat, k: nat)
    ensures Low(w, k + 1) == 2 * Low(w / 2, k) + w % 2 && Shr(w, k + 1) == Shr(w / 2, k)
  {
  }

  lemma {:induction false} OnesLow(w: nat, k: nat)
    ensures Ones(Low(w, k + 1)) == Ones(Low(w, k)) + if Bit(w, k) then 1 else 0
    decreases k
  {
    hide Low, Shr, Ones;
    NextBit(w, k);
    OnesStep(Low(w / 2, k), w % 2);
    if k == 0 {
      LowStart(w);
      LowStart(w / 2);
    } else {
      OnesLow(w / 2, k - 1);
      NextBit(w, k - 1);
      OnesStep(Low(w / 2, k - 1), w % 2);
    }
  }

  lemma {:induction false} LowAll(w: nat, k: nat)
    requires w < Pow2(k)
    ensures Low(w, k) == w
    decreases k
  {
    if k > 0 {
      LowAll(w / 2, k - 1);
    }
  }

  lemma WordBits()
    ensures Pow2(64) == WORD_LIMIT
  {
    Pow2Values();
    Pow2Sum(32, 32);
  }

  // Setting a clear bit.
  // The lowest bit, and the bits above it.
  lemma BitStep(w: nat, c: nat)
    ensures Bit(w, c) <==> if c == 0 then w % 2 == 1 else Bit(w / 2, c - 1)
  {
    LowStart(w);
    if c > 0 {
      NextBit(w, c - 1);
    }
  }

  lemma PowerStep(b: nat)
    ensures Pow2(0) == 1 && (b > 0 ==> Pow2(b) == 2 * Pow2(b - 1))
  {
  }

  lemma {:induction false} SetBit(w: nat, b: nat, k: nat)
    requires !Bit(w, b) && w < Pow2(k) && b < k
    ensures w + Pow2(b) < Pow2(k) && Ones(w + Pow2(b)) == Ones(w) + 1
    ensures Low(w + Pow2(b), b) == Low(w, b)
    ensures forall c :: Bit(w + Pow2(b), c) <==> Bit(w, c) || c == b
    decreases b
  {
    hide Bit, Low, Shr, Ones, Pow2;
    var x, v := w + Pow2(b), w / 2;
    PowerStep(k);
    PowerStep(b);
    BitStep(w, b);
    OnesStep(v, w % 2);
    OnesStep(x / 2, x % 2);
    if b == 0 {
      assert x / 2 == v;
      LowStart(w);
      LowStart(x);
    } else {
      assert x / 2 == v + Pow2(b - 1) && x % 2 == w % 2;
      SetBit(v, b - 1, k - 1);
      NextBit(w, b - 1);
      NextBit(x, b - 1);
    }
    forall c: nat
      ensures Bit(x, c) <==> Bit(w, c) || c == b
    {
      BitStep(w, c);
      BitStep(x, c);
    }
  }

  lemma {:induction false} HasBit(w: nat, b: nat)
    requires Bit(w, b)
    ensures w >= Pow2(b) && !Bit(w - Pow2(b), b)
    decreases b
  {
    if b == 0 {
      assert Shr(w, 0) == w && Shr(w - 1, 0) == w - 1;
    } else {
      HasBit(w / 2, b - 1);
      assert (w - Pow2(b)) / 2 == w / 2 - Pow2(b - 1);
    }
  }

  lemma NoBits(b: nat)
    ensures Shr(0, b) == 0 && !Bit(0, b) && Ones(0) == 0 && Low(0, b) == 0
  {
    LowAll(0, b);
    ZeroShr(b);
  }

  lemma {:induction false} ZeroShr(b: nat)
    ensures Shr(0, b) == 0
  {
    if b > 0 {
      ZeroShr(b - 1);
    }
  }

  // ---- ranks

  // The rank by word counts is the rank by counting.
  lemma {:induction false} RankByWord(words: seq<nat>, x: nat)
    requires Words(words) && x / 64 < |words|
    ensures Rank(words, x) == Before(words, x / 64) + Ones(Low(words[x / 64], x % 64))
  {
    hide Ones, Low, Shr;
    if x == 0 {
      assert Ones(Low(words[0], 0)) == 0 by { EmptyLow(words[0]); }
    } else {
      var i := (x - 1) / 64;
      RankByWord(words, x - 1);
      OnesLow(words[i], (x - 1) % 64);
      if x % 64 == 0 {
        WordBits();
        LowAll(words[i], 64);
        EmptyLow(words[x / 64]);
        assert (x - 1) % 64 == 63 && x / 64 == i + 1;
      } else {
        assert x / 64 == i && x % 64 == (x - 1) % 64 + 1;
      }
    }
  }

  lemma EmptyLow(w: nat)
    ensures Ones(Low(w, 0)) == 0
  {
  }

  // Ranks keep the order of present indices.
  lemma {:induction false} RankOrder(words: seq<nat>, x: nat, y: nat)
    requires x < y
    ensures Rank(words, x) <= Rank(words, y) && (In(words, x) ==> Rank(words, x) < Rank(words, y))
  {
    if x + 1 < y {
      RankOrder(words, x, y - 1);
    }
  }

  // Every number below the count of present indices is the rank of one.
  lemma {:induction false} RankOnto(words: seq<nat>, n: nat, r: nat) returns (x: nat)
    requires r < Rank(words, n)
    ensures x < n && In(words, x) && Rank(words, x) == r
  {
    if In(words, n - 1) && Rank(words, n - 1) == r {
      x := n - 1;
    } else {
      x := RankOnto(words, n - 1, r);
    }
  }

  lemma {:induction false} RankSame(words: seq<nat>, words': seq<nat>, x: nat)
    requires forall y: nat :: y < x ==> (In(words, y) <==> In(words', y))
    ensures Rank(words, x) == Rank(words', x)
  {
    if x > 0 {
      RankSame(words, words', x - 1);
    }
  }

  lemma {:induction false} BeforeSame(words: seq<nat>, words': seq<nat>, i: nat)
    requires i <= |words| && i <= |words'| && words[..i] == words'[..i]
    ensures Before(words, i) == Before(words', i)
  {
    if i > 0 {
      assert words[i - 1] == words[..i][i - 1] && words'[i - 1] == words'[..i][i - 1];
      assert words[..i - 1] == words[..i][..i - 1] && words'[..i - 1] == words'[..i][..i - 1];
      BeforeSame(words, words', i - 1);
    }
  }

  // One word changed.
  lemma {:induction false} BeforeChanged(words: seq<nat>, i: nat, w: nat, j: nat)
    requires i < |words| && j <= |words|
    ensures Before(words[i := w], j) == Before(words, j) + if j > i then Ones(w) - Ones(words[i]) else 0
  {
    if j > 0 {
      BeforeChanged(words, i, w, j - 1);
    }
  }

  // Words of zeros appended.
  lemma {:induction false} BeforeZeros(words: seq<nat>, l: nat, j: nat)
    requires l <= j <= |words| && forall i :: l <= i < |words| ==> words[i] == 0
    ensures Before(words, j) == Before(words, l)
  {
    if j > l {
      BeforeZeros(words, l, j - 1);
    }
  }

  // ---- the array

  // Zero words mark nothing, and the words before them count alone.
  lemma GrownBefore(words: seq<nat>, n: nat)
    ensures var w := words + seq(n, _ => 0);
            forall j: nat :: j < |w| ==> Before(w, j) == if j < |words| then Before(words, j) else Before(words, |words|)
  {
    hide Ones;
    var w := words + seq(n, _ => 0);
    assert w[..|words|] == words;
    forall j: nat | j < |w|
      ensures Before(w, j) == if j < |words| then Before(words, j) else Before(words, |words|)
    {
      if j >= |words| {
        BeforeZeros(w, |words|, j);
        BeforeSame(w, words, |words|);
      } else {
        assert w[..j] == w[..|words|][..j];
        BeforeSame(w, words, j);
      }
    }
  }

  lemma GrownIn(words: seq<nat>, n: nat)
    ensures forall y: nat :: In(words + seq(n, _ => 0), y) <==> In(words, y)
  {
    hide Shr;
    forall y: nat
      ensures In(words + seq(n, _ => 0), y) <==> In(words, y)
    {
      NoBits(y % 64);
    }
  }

  class Sparse {
    var valid: seq<nat>
    var count: seq<int>

    // Every count is the number of set bits in the words before.
    ghost predicate Valid()
      reads this
    {
      |count| == |valid| && Words(valid) && forall i :: 0 <= i < |valid| ==> count[i] == Before(valid, i)
    }

    constructor ()
      ensures Valid() && valid == []
    {
      valid, count := [], [];
    }

    method Get(x: nat) returns (dense: nat, present: bool)
      requires Valid()
      ensures present <==> In(valid, x)
      ensures present ==> dense == Rank(valid, x)
      ensures !present ==> dense == if x / 64 < |valid| then MAX_INDEX else 0
    {
      hide Shr, Low, Ones;
      var i, b := x / 64, x % 64;
      if i >= |valid| {
        return 0, false;
      }
      var v := valid[i];
      present := Bit(v, b);
      dense := MAX_INDEX;
      if present {
        LowSmall(v, b);
        var n := NSetBits(Low(v, b));
        RankByWord(valid, x);
        dense := count[i] + n;
      }
    }

    // The counts behind word start change by dx.
    method Inc(start: nat, dx: int)
      requires start < |count|
      modifies this`count
      ensures |count| == |old(count)|
      ensures forall i :: 0 <= i < |count| ==> count[i] == old(count)[i] + if i > start then dx else 0
    {
      var i := start + 1;
      while i < |count|
        invariant start < i <= |count| == |old(count)|
        invariant forall j :: 0 <= j < |count| ==> count[j] == old(count)[j] + if start < j < i then dx else 0
      {
        count := count[i := count[i] + dx];
        i := i + 1;
      }
    }

    // The words behind i may still lack their counts.
    method EltsBefore(i: nat) returns (n: nat)
      requires i < |valid| && i < |count| && valid[i] < WORD_LIMIT && count[i] == Before(valid, i)
      ensures n == Before(valid, i + 1)
    {
      var ones := NSetBits(valid[i]);
      n := count[i] + ones;
    }

    // Gives all counts from word l on the value e.
    method Fill(l: nat, e: nat)
      requires l <= |count|
      modifies this`count
      ensures |count| == |old(count)| && forall k :: 0 <= k < |count| ==> count[k] == if l <= k then e else old(count)[k]
    {
      var j := l;
      while j < |count|
        invariant l <= j <= |count| == |old(count)|
        invariant forall k :: 0 <= k < |count| ==> count[k] == if l <= k < j then e else old(count)[k]
      {
        count := count[j := e];
        j := j + 1;
      }
    }

    // Room for word i; new counts carry on from the last one.
    method Extend(i: nat)
      requires Valid()
      modifies this`valid, this`count
      ensures Valid() && i < |valid| && (i < |old(valid)| ==> valid == old(valid))
      ensures forall y :: In(valid, y) <==> In(old(valid), y)
    {
      hide Shr, Ones, In;
      var l := |valid|;
      ghost var n: nat := if l <= i then i + 1 - l else 0;
      GrownBefore(valid, n);
      GrownIn(valid, n);
      if l <= i {
        valid := valid + seq(i + 1 - l, _ => 0);
        count := count + seq(i + 1 - l, _ => 0);
      }
      assert valid == old(valid) + seq(n, _ => 0);
      if l > 0 && |valid| > l {
        var e := EltsBefore(l - 1);
        assert valid[l - 1] == old(valid)[l - 1] && e == Before(old(valid), l);
        if e != 0 {
          Fill(l, e);
        }
      }
    }

    // Marks x present and gives its rank; 0 when it was present already.
    method Set(x: nat) returns (dense: nat)
      requires Valid()
      modifies this`valid, this`count
      ensures Valid() && forall y: nat :: In(valid, y) <==> In(old(valid), y) || y == x
      ensures dense == if In(old(valid), x) then 0 else Rank(valid, x)
      ensures In(old(valid), x) ==> valid == old(valid)
    {
      hide Shr, Low, Ones, Bit;
      var i, b := x / 64, x % 64;
      Extend(i);
      ghost var words := valid;
      var v := valid[i];
      if Bit(v, b) {
        return 0;
      }
      LowSmall(v, b);
      var n := NSetBits(Low(v, b));
      WordBits();
      SetBit(v, b, 64);
      SetWord(words, x, v + Pow2(b));
      valid := valid[i := v + Pow2(b)];
      SetRank(words, valid, x);
      dense := count[i] + n;
      Inc(i, 1);
      CountsMoved(words, i, v + Pow2(b), 1);
    }

    method Unset(x: nat) returns (was: bool)
      requires Valid() && x / 64 < |valid|
      modifies this`valid, this`count
      ensures Valid() && was == In(old(valid), x)
      ensures forall y: nat :: In(valid, y) <==> In(old(valid), y) && y != x
    {
      hide Shr, Low, Ones, Bit;
      var i, b := x / 64, x % 64;
      var v := valid[i];
      was := Bit(v, b);
      if was {
        HasBit(v, b);
        WordBits();
        SetBit(v - Pow2(b), b, 64);
        ghost var words := valid;
        valid := valid[i := v - Pow2(b)];
        Inc(i, -1);
        CountsMoved(words, i, v - Pow2(b), -1);
        assert valid[i := v] == words;
        SetWord(valid, x, v);
      }
    }
  }

  lemma CountsMoved(words: seq<nat>, i: nat, w: nat, dx: int)
    requires i < |words| && Ones(w) == Ones(words[i]) + dx
    ensures forall j :: 0 <= j <= |words| ==> Before(words[i := w], j) == Before(words, j) + if j > i then dx else 0
  {
    hide Ones, Before;
    forall j: nat | j <= |words|
      ensures Before(words[i := w], j) == Before(words, j) + if j > i then dx else 0
    {
      BeforeChanged(words, i, w, j);
    }
  }

  // Marking x present does not change its rank.
  lemma SetRank(words: seq<nat>, words': seq<nat>, x: nat)
    requires Words(words) && x / 64 < |words|
    requires forall y: nat :: In(words', y) <==> In(words, y) || y == x
    ensures Rank(words', x) == Before(words, x / 64) + Ones(Low(words[x / 64], x % 64))
  {
    hide Bit, Ones, Low;
    RankByWord(words, x);
    RankSame(words, words', x);
  }

  // Word x / 64 gets bit x % 64 on top of its others.
  lemma SetWord(words: seq<nat>, x: nat, w: nat)
    requires x / 64 < |words| && forall c :: Bit(w, c) <==> Bit(words[x / 64], c) || c == x % 64
    ensures forall y: nat :: In(words[x / 64 := w], y) <==> In(words, y) || y == x
  {
    hide Bit;
    forall y: nat
      ensures In(words[x / 64 := w], y) <==> In(words, y) || y == x
    {
      assert y == y / 64 * 64 + y % 64 && x == x / 64 * 64 + x % 64;
    }
  }

  lemma LowSmall(w: nat, b: nat)
    requires b < 64
    ensures Low(w, b) < WORD_LIMIT
  {
    WordBits();
    Pow2Grows(b, 64);
  }
}

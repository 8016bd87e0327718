// Bit compress: the bits of a word under a mask, packed to the low end in order,
// by six rounds that each move some of the bits by a power of two.
module BitCompress {
  import opened Basics

  import Caps

  const BITS: nat := 64

  // A 64-bit word is the set of its bits.
  type Word = w: set<nat> | forall b :: b in w ==> b < BITS

  function Shl(w: Word, k: nat): Word {
    set b | b in Upto(BITS) && b >= k && b - k in w
  }

  function Shr(w: Word, k: nat): Word {
    set b | b in Upto(BITS) && b + k in w
  }

  function Not(w: Word): Word {
    Upto(BITS) - w
  }

  function Xor(a: Word, b: Word): Word {
    (a - b) + (b - a)
  }

  // ---- counting

  // Zeros of the mask below bit p, and ones.
  function Zeros(mask: Word, p: nat): nat {
    if p == 0 then 0 else Zeros(mask, p - 1) + if p - 1 in mask then 0 else 1
  }

  function Ones(mask: Word, p: nat): nat {
    if p == 0 then 0 else Ones(mask, p - 1) + if p - 1 in mask then 1 else 0
  }

  // What compressing is to do: every bit of x under the mask goes to the place
  // given by the number of mask bits below it.
  function Packed(mask: Word, x: Word): set<nat> {
    set p | p in x * mask :: Ones(mask, p)
  }

  lemma {:induction false} ZerosAndOnes(mask: Word, p: nat)
    ensures Zeros(mask, p) + Ones(mask, p) == p
  {
    if p > 0 {
      ZerosAndOnes(mask, p - 1);
    }
  }

  lemma {:induction false} CountsGrow(mask: Word, p: nat, q: nat)
    requires p <= q
    ensures Zeros(mask, p) <= Zeros(mask, q) <= Zeros(mask, p) + (q - p)
    ensures Ones(mask, p) <= Ones(mask, q) && (p < q && p in mask ==> Ones(mask, p) < Ones(mask, q))
  {
    if p < q {
      CountsGrow(mask, p, q - 1);
    }
  }

  lemma DivMod(a: nat, m: nat)
    requires m > 0
    ensures a == a / m * m + a % m && a % m <= a && a / m * m <= a
  {
    assert a / m >= 0;
    assert a / m * m >= 0;
  }

  // ---- where the bits are between two rounds

  // Before the round that moves by step, bit p has moved by the rest of its
  // zeros that earlier rounds took care of.
  function Pos(mask: Word, step: nat, p: nat): nat
    requires step > 0
  {
    PosBelow(mask, step, p);
    p - Zeros(mask, p) % step
  }

  lemma PosBelow(mask: Word, step: nat, p: nat)
    requires step > 0
    ensures Zeros(mask, p) % step <= p
  {
    ZerosAndOnes(mask, p);
    DivMod(Zeros(mask, p), step);
  }

  lemma PosBounds(mask: Word, step: nat, p: nat)
    requires step > 0
    ensures 0 <= Pos(mask, step, p) <= p
    ensures Pos(mask, step, p) == Ones(mask, p) + Zeros(mask, p) / step * step
  {
    ZerosAndOnes(mask, p);
    DivMod(Zeros(mask, p), step);
  }

  lemma DivGrows(a: nat, b: nat, m: nat)
    requires m > 0 && a <= b
    ensures a / m * m <= b / m * m
  {
    DivMod(a, m);
    DivMod(b, m);
    assert (a / m - b / m) * m == a / m * m - b / m * m;
    Caps.MulSign(a / m - b / m, m);
    assert a / m == b / m ==> a / m * m == b / m * m;
    Caps.MulSign(b / m - a / m, m);
    assert (b / m - a / m) * m == b / m * m - a / m * m;
  }

  // No two mask bits are ever at the same place, and their order is kept.
  lemma PosGrows(mask: Word, step: nat, p: nat, q: nat)
    requires step > 0 && p < q && p in mask
    ensures Pos(mask, step, p) < Pos(mask, step, q)
  {
    PosBounds(mask, step, p);
    PosBounds(mask, step, q);
    CountsGrow(mask, p, q);
    DivGrows(Zeros(mask, p), Zeros(mask, q), step);
  }

  // Bits of x after the rounds below step.
  function Places(mask: Word, x: Word, step: nat): set<nat>
    requires step > 0
  {
    set p | p in x :: Pos(mask, step, p)
  }

  predicate Odd(mask: Word, step: nat, p: nat)
    requires step > 0
  {
    Zeros(mask, p) / step % 2 == 1
  }

  // The mask bits that the round for step moves.
  function Movers(mask: Word, step: nat): set<nat>
    requires step > 0
  {
    set p | p in mask && Odd(mask, step, p) :: Pos(mask, step, p)
  }

  lemma Distribute(h: nat, o: nat, m: nat)
    ensures (2 * h + o) * m == h * (2 * m) + o * m
  {
  }

  lemma HalfMod(z: nat, m: nat)
    requires m > 0
    ensures z % (2 * m) == z % m + if z / m % 2 == 1 then m else 0
  {
    var a, o := z / m, z / m % 2;
    DivMod(z, m);
    DivMod(a, 2);
    Distribute(a / 2, o, m);
    if o == 1 {
      Caps.QuotientUnique(z, 2 * m, a / 2, z % m + m);
    } else {
      Caps.QuotientUnique(z, 2 * m, a / 2, z % m);
    }
  }

  lemma NextPos(mask: Word, step: nat, p: nat)
    requires step > 0
    ensures Pos(mask, 2 * step, p) == Pos(mask, step, p) - if Odd(mask, step, p) then step else 0
  {
    HalfMod(Zeros(mask, p), step);
  }

  // ---- one round moves the right bits

  // Bits of x by whether the round moves them, where they are before and after.
  function Staying(mask: Word, x: Word, step: nat): set<nat>
    requires step > 0
  {
    set p | p in x && !Odd(mask, step, p) :: Pos(mask, step, p)
  }

  function Leaving(mask: Word, x: Word, step: nat): set<nat>
    requires step > 0
  {
    set p | p in x && Odd(mask, step, p) :: Pos(mask, step, p)
  }

  function Arriving(mask: Word, x: Word, step: nat): set<nat>
    requires step > 0
  {
    set p | p in x && Odd(mask, step, p) :: Pos(mask, 2 * step, p)
  }

  lemma SamePlace(mask: Word, step: nat, p: nat, q: nat)
    requires step > 0 && p in mask && q in mask && Pos(mask, step, p) == Pos(mask, step, q)
    ensures p == q
  {
    if p < q {
      PosGrows(mask, step, p, q);
    } else if q < p {
      PosGrows(mask, step, q, p);
    }
  }

  lemma PlacesParts(mask: Word, x: Word, step: nat)
    requires step > 0 && x <= mask
    ensures Places(mask, x, step) == Staying(mask, x, step) + Leaving(mask, x, step)
    ensures Staying(mask, x, step) !! Leaving(mask, x, step)
    ensures Places(mask, x, step) * Movers(mask, step) == Leaving(mask, x, step)
  {
    hide Pos, Odd;
    forall p, q | p in mask && q in mask && Pos(mask, step, p) == Pos(mask, step, q)
      ensures p == q
    {
      SamePlace(mask, step, p, q);
    }
  }

  lemma NextParts(mask: Word, x: Word, step: nat)
    requires step > 0 && x <= mask
    ensures Places(mask, x, 2 * step) == Staying(mask, x, step) + Arriving(mask, x, step)
    ensures Staying(mask, x, step) !! Arriving(mask, x, step)
  {
    hide Pos, Odd;
    forall p | p in x && !Odd(mask, step, p)
      ensures Pos(mask, 2 * step, p) == Pos(mask, step, p)
    {
      NextPos(mask, step, p);
    }
    forall p, q | p in mask && q in mask && Pos(mask, 2 * step, p) == Pos(mask, 2 * step, q)
      ensures p == q
    {
      SamePlace(mask, 2 * step, p, q);
    }
  }

  lemma ShiftLeaving(mask: Word, x: Word, step: nat, q: Word)
    requires step > 0 && x <= mask && q == Leaving(mask, x, step)
    ensures Shr(q, step) == Arriving(mask, x, step)
  {
    hide Pos, Odd;
    forall p | p in x && Odd(mask, step, p)
      ensures Pos(mask, step, p) == Pos(mask, 2 * step, p) + step && Pos(mask, 2 * step, p) < BITS
    {
      NextPos(mask, step, p);
      PosBounds(mask, 2 * step, p);
    }
    forall b | b in Shr(q, step)
      ensures b in Arriving(mask, x, step)
    {
      var p :| p in x && Odd(mask, step, p) && Pos(mask, step, p) == b + step;
      assert Pos(mask, 2 * step, p) == b;
    }
    forall b | b in Arriving(mask, x, step)
      ensures b in Shr(q, step)
    {
      var p :| p in x && Odd(mask, step, p) && Pos(mask, 2 * step, p) == b;
      assert Pos(mask, step, p) in Leaving(mask, x, step);
    }
  }

  // The round for step, on the bits of x: those at Movers go down by step.
  lemma RoundMoves(mask: Word, x: Word, step: nat, r: Word)
    requires step > 0 && x <= mask && r == Places(mask, x, step)
    ensures var q := r * Movers(mask, step);
            Xor(r, Xor(q, Shr(q, step))) == Places(mask, x, 2 * step)
  {
    hide Places, Staying, Leaving, Arriving, Movers, Shr;
    var q := r * Movers(mask, step);
    PlacesParts(mask, x, step);
    NextParts(mask, x, step);
    ShiftLeaving(mask, x, step, q);
  }

  // ---- the parity of the bits below, by doubling

  function CountIn(q: Word, n: nat): nat {
    if n == 0 then 0 else CountIn(q, n - 1) + if n - 1 in q then 1 else 0
  }

  // Whether an odd number of the w bits up to bit b is in q.
  function Par(q: Word, b: nat, w: nat): bool {
    if w == 0 then false else Par(q, b, w - 1) != (w - 1 <= b && b - (w - 1) in q)
  }

  function Parities(q: Word, w: nat): Word {
    set b | b in Upto(BITS) && Par(q, b, w)
  }

  lemma ParityAt(q: Word, w: nat, b: nat)
    ensures b in Parities(q, w) <==> b < BITS && Par(q, b, w)
  {
  }

  lemma {:induction false} ParSum(q: Word, b: nat, u: nat, w: nat)
    ensures Par(q, b, u + w) == (Par(q, b, u) != (u <= b && Par(q, b - u, w)))
  {
    if w > 0 {
      ParSum(q, b, u, w - 1);
      assert u + w - 1 <= b ==> b - (u + w - 1) == b - u - (w - 1);
    }
  }

  lemma {:induction false} ParBeyond(q: Word, b: nat, w: nat)
    requires w > b
    ensures Par(q, b, w) == Par(q, b, b + 1)
  {
    if w > b + 1 {
      ParBeyond(q, b, w - 1);
    }
  }

  lemma {:induction false} ParIsCount(q: Word, b: nat, w: nat)
    requires w <= b + 1
    ensures CountIn(q, b + 1) >= CountIn(q, b + 1 - w)
    ensures Par(q, b, w) <==> (CountIn(q, b + 1) - CountIn(q, b + 1 - w)) % 2 == 1
  {
    if w > 0 {
      ParIsCount(q, b, w - 1);
    }
  }

  lemma ParitiesDouble(q: Word, w: nat)
    ensures Xor(Parities(q, w), Shl(Parities(q, w), w)) == Parities(q, w + w)
  {
    hide Parities, Par;
    var m := Parities(q, w);
    forall b: nat | b < BITS
      ensures b in Xor(m, Shl(m, w)) <==> b in Parities(q, w + w)
    {
      ParSum(q, b, w, w);
      ParityAt(q, w, b);
      ParityAt(q, w + w, b);
      if b >= w {
        ParityAt(q, w, b - w);
      }
    }
    forall b: nat | b in Xor(m, Shl(m, w)) || b in Parities(q, w + w)
      ensures b < BITS
    {
    }
  }

  lemma ParitiesAll(q: Word, b: nat)
    requires b < BITS
    ensures b in Parities(q, BITS) <==> CountIn(q, b + 1) % 2 == 1
  {
    ParBeyond(q, b, BITS);
    ParIsCount(q, b, b + 1);
  }

  // Each bit becomes the parity of all bits up to it.
  method Smear(q: Word) returns (m: Word)
    ensures m == Parities(q, BITS)
  {
    hide Parities, Shl, Xor;
    ParitiesOne(q);
    m := q;
    ParitiesDouble(q, 1);
    m := Xor(m, Shl(m, 1));
    ParitiesDouble(q, 2);
    m := Xor(m, Shl(m, 2));
    ParitiesDouble(q, 4);
    m := Xor(m, Shl(m, 4));
    ParitiesDouble(q, 8);
    m := Xor(m, Shl(m, 8));
    ParitiesDouble(q, 16);
    m := Xor(m, Shl(m, 16));
    ParitiesDouble(q, 32);
    m := Xor(m, Shl(m, 32));
  }

  lemma ParitiesOne(q: Word)
    ensures Parities(q, 1) == q
  {
    assert forall b: nat :: Par(q, b, 1) == (b in q) by {
      forall b: nat
        ensures Par(q, b, 1) == (b in q)
      {
        assert Par(q, b, 0) == false;
      }
    }
  }

  // ---- the zeros that count for a round

  // Every step-th zero of the mask.
  function Marked(mask: Word, step: nat): Word
    requires step > 0
  {
    set z | z in Upto(BITS) && z !in mask && (Zeros(mask, z) + 1) % step == 0
  }

  lemma DivStep(a: nat, m: nat)
    requires m > 0
    ensures (a + 1) / m == a / m + if (a + 1) % m == 0 then 1 else 0
  {
    DivMod(a, m);
    if a % m + 1 < m {
      Caps.QuotientUnique(a + 1, m, a / m, a % m + 1);
    } else {
      assert (a / m + 1) * m == a / m * m + m;
      Caps.QuotientUnique(a + 1, m, a / m + 1, 0);
    }
  }

  lemma {:induction false} MarkedCount(mask: Word, step: nat, b: nat)
    requires step > 0 && b <= BITS
    ensures CountIn(Marked(mask, step), b) == Zeros(mask, b) / step
  {
    if b > 0 {
      MarkedCount(mask, step, b - 1);
      DivStep(Zeros(mask, b - 1), step);
    } else {
      Caps.QuotientUnique(0, step, 0, 0);
    }
  }

  // At the place of mask bit p there are as many marked zeros below as below p.
  lemma SameZeros(mask: Word, step: nat, p: nat)
    requires step > 0
    ensures Zeros(mask, Pos(mask, step, p)) / step == Zeros(mask, p) / step
  {
    var z, c := Zeros(mask, p), Pos(mask, step, p);
    DivMod(z, step);
    CountsGrow(mask, c, p);
    Caps.QuotientUnique(Zeros(mask, c), step, z / step, Zeros(mask, c) - z / step * step);
  }

  // A mask bit has an odd number of marked zeros below it exactly if it moves.
  lemma RoundFindsAt(mask: Word, step: nat, p: nat)
    requires step > 0 && p in mask
    ensures Pos(mask, step, p) in Shl(Parities(Marked(mask, step), BITS), 1) <==> Odd(mask, step, p)
  {
    hide Parities, Pos, Marked, Zeros;
    var c := Pos(mask, step, p);
    PosBounds(mask, step, p);
    SameZeros(mask, step, p);
    MarkedCount(mask, step, c);
    if c > 0 {
      ParitiesAll(Marked(mask, step), c - 1);
    } else {
      NoZeros(mask);
      Caps.QuotientUnique(0, step, 0, 0);
    }
  }

  lemma NoZeros(mask: Word)
    ensures Zeros(mask, 0) == 0
  {
  }

  // The bits that the round finds to move are the movers.
  lemma RoundFinds(mask: Word, step: nat, zm: Word)
    requires step > 0 && zm == Places(mask, mask, step)
    ensures Shl(Parities(Marked(mask, step), BITS), 1) * zm == Movers(mask, step)
  {
    hide Parities, Pos, Marked, Shl, Odd;
    var n := Shl(Parities(Marked(mask, step), BITS), 1) * zm;
    forall p | p in mask
      ensures Pos(mask, step, p) in n <==> Odd(mask, step, p)
    {
      RoundFindsAt(mask, step, p);
    }
    forall b | b in n
      ensures b in Movers(mask, step)
    {
      var p :| p in mask && Pos(mask, step, p) == b;
    }
    forall b | b in Movers(mask, step)
      ensures b in n
    {
      var p :| p in mask && Odd(mask, step, p) && Pos(mask, step, p) == b;
    }
  }

  lemma RoundKeepsAt(mask: Word, step: nat, z: nat)
    requires step > 0 && z < BITS && z !in mask
    ensures z in Marked(mask, step) - Parities(Marked(mask, step), BITS) <==> (Zeros(mask, z) + 1) % (2 * step) == 0
  {
    hide Parities;
    ParitiesAll(Marked(mask, step), z);
    MarkedCount(mask, step, z + 1);
    HalfOfMultiple(Zeros(mask, z) + 1, step);
  }

  // The zeros kept for the next round.
  lemma RoundKeeps(mask: Word, step: nat)
    requires step > 0
    ensures Marked(mask, step) - Parities(Marked(mask, step), BITS) == Marked(mask, 2 * step)
  {
    hide Parities, Zeros;
    var q := Marked(mask, step);
    forall z: nat | z in Upto(BITS) && z !in mask
      ensures z in q - Parities(q, BITS) <==> (Zeros(mask, z) + 1) % (2 * step) == 0
    {
      RoundKeepsAt(mask, step, z);
    }
  }

  lemma HalfOfMultiple(a: nat, m: nat)
    requires m > 0
    ensures a % (2 * m) == 0 <==> a % m == 0 && a / m % 2 == 0
  {
    DivMod(a, m);
    DivMod(a / m, 2);
    DivMod(a, 2 * m);
    if a % m == 0 && a / m % 2 == 0 {
      assert a == a / m / 2 * (2 * m) + 0;
      Caps.QuotientUnique(a, 2 * m, a / m / 2, 0);
    }
    if a % (2 * m) == 0 {
      assert a == (a / (2 * m) * 2) * m + 0;
      Caps.QuotientUnique(a, m, a / (2 * m) * 2, 0);
    }
  }

  // ---- the compressor

  class BitCompressUint64 {
    // The mask, and the bits that each round moves.
    const state: array<Word>

    constructor ()
      ensures fresh(state) && state.Length == 7
    {
      state := new Word[7](_ => {});
    }

    // Made ready for this mask.
    ghost predicate For(mask: Word)
      reads this, state
    {
      state.Length == 7 && state[0] == mask && state[1] == Movers(mask, 1) && state[2] == Movers(mask, 2)
      && state[3] == Movers(mask, 4) && state[4] == Movers(mask, 8) && state[5] == Movers(mask, 16)
      && state[6] == Movers(mask, 32)
    }

    method SetMask(mask: Word)
      requires state.Length == 7
      modifies state
      ensures For(mask)
    {
      hide Movers, Places, Marked, Shl, Shr, Xor, Not, Parities;
      var m := Not(mask);
      var zm := mask;
      MarkedStart(mask);
      PlacesStart(mask, mask);
      state[0] := mask;
      var i, step := 1, 1;
      while i < 7
        invariant 1 <= i <= 7 && step == StepOf(i) && m == Marked(mask, step) && zm == Places(mask, mask, step)
        invariant state[0] == mask && forall j :: 1 <= j < i ==> state[j] == Movers(mask, StepOf(j))
      {
        var q := m;
        m := Smear(m);
        var n := Shl(m, 1) * zm;
        RoundFinds(mask, step, zm);
        state[i] := n;
        m := q - m;
        RoundKeeps(mask, step);
        q := zm * n;
        RoundMoves(mask, mask, step, zm);
        zm := Xor(zm, Xor(q, Shr(q, step)));
        i, step := i + 1, 2 * step;
      }
      Steps();
    }

    // For every mask and every word: the bits under the mask, packed to the low
    // end in their order.
    method Compress(x: Word, ghost mask: Word) returns (r: Word)
      requires For(mask)
      ensures r == Packed(mask, x)
    {
      hide Movers, Places, Shr, Xor, Packed;
      var y := x * state[0];
      r := y;
      PlacesStart(mask, y);
      RoundMoves(mask, y, 1, r);
      var q := r * state[1];
      r := Xor(r, Xor(q, Shr(q, 1)));
      RoundMoves(mask, y, 2, r);
      q := r * state[2];
      r := Xor(r, Xor(q, Shr(q, 2)));
      RoundMoves(mask, y, 4, r);
      q := r * state[3];
      r := Xor(r, Xor(q, Shr(q, 4)));
      RoundMoves(mask, y, 8, r);
      q := r * state[4];
      r := Xor(r, Xor(q, Shr(q, 8)));
      RoundMoves(mask, y, 16, r);
      q := r * state[5];
      r := Xor(r, Xor(q, Shr(q, 16)));
      RoundMoves(mask, y, 32, r);
      q := r * state[6];
      r := Xor(r, Xor(q, Shr(q, 32)));
      PlacesEnd(mask, x);
    }
  }

  function StepOf(i: nat): (s: nat)
    ensures s > 0
  {
    if i <= 1 then 1 else 2 * StepOf(i - 1)
  }

  lemma Steps()
    ensures StepOf(1) == 1 && StepOf(2) == 2 && StepOf(3) == 4 && StepOf(4) == 8 && StepOf(5) == 16 && StepOf(6) == 32
  {
    assert StepOf(3) == 4 && StepOf(5) == 16;
  }

  lemma PlacesStart(mask: Word, x: Word)
    ensures Places(mask, x, 1) == x
  {
    assert forall p :: p in x ==> Pos(mask, 1, p) == p;
  }

  lemma MarkedStart(mask: Word)
    ensures Marked(mask, 1) == Not(mask)
  {
  }

  // After the last round every bit has passed all zeros below it.
  lemma PlacesEnd(mask: Word, x: Word)
    ensures Places(mask, x * mask, 64) == Packed(mask, x)
  {
    forall p | p in x * mask
      ensures Pos(mask, 64, p) == Ones(mask, p)
    {
      ZerosAndOnes(mask, p);
      assert p < BITS;
    }
  }

  // The bit by bit reference.
  method SlowCompress(mask: Word, value: Word) returns (r: Word)
    ensures r == Packed(mask, value)
  {
    var n: nat := 0;
    r := {};
    var i := 0;
    while i < 64
      invariant 0 <= i <= 64 && n == Ones(mask, i) && n <= i
      invariant r == PackedBelow(mask, value, i)
    {
      if i in mask {
        if i in value {
          r := r + {n};
        }
        n := n + 1;
      }
      i := i + 1;
    }
    assert forall p :: p in value * mask ==> p < 64;
  }

  // Packed means packed: the mask itself fills the low end without a gap, and
  // the order of bits is kept.
  lemma {:induction false} NoGaps(mask: Word, n: nat, c: nat) returns (p: nat)
    requires c < Ones(mask, n)
    ensures p in mask && p < n && Ones(mask, p) == c
  {
    if n - 1 in mask && c == Ones(mask, n - 1) {
      p := n - 1;
    } else {
      p := NoGaps(mask, n - 1, c);
    }
  }

  lemma PackedFillsLowEnd(mask: Word)
    ensures Packed(mask, mask) == Upto(Ones(mask, BITS))
  {
    forall c: nat | c < Ones(mask, BITS)
      ensures c in Packed(mask, mask)
    {
      var p := NoGaps(mask, BITS, c);
    }
    forall c | c in Packed(mask, mask)
      ensures c < Ones(mask, BITS)
    {
      var p :| p in mask && Ones(mask, p) == c;
      CountsGrow(mask, p, BITS);
    }
  }

  function PackedBelow(mask: Word, x: Word, n: nat): set<nat> {
    set p | p in x * mask && p < n :: Ones(mask, p)
  }
}

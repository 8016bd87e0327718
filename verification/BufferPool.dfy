// Pools of DMA buffers: references handed out from the end of a list, and taken
// back with their headers reset, four at a time.
module BufferPools {
  import opened Basics

  import Caps

  // A reference to the buffer at an offset; rest stands for its data fields.
  datatype Ref = Ref(offset: nat, nextValid: bool, rest: nat)

  // A buffer header: the next buffer of a packet, a word that users keep in it
  // across frees, and the rest.
  datatype Buffer = Buffer(nextRef: Ref, save: nat, rest: nat)

  // What references and buffers look like when they are free.
  datatype Template = Template(ref: Ref, buffer: Buffer)

  type Memory = map<nat, Buffer>

  function Offsets(s: seq<Ref>): seq<nat> {
    seq(|s|, i requires 0 <= i < |s| => s[i].offset)
  }

  // A reference to the same buffer, as a new one.
  function Reset(t: Template, r: Ref): Ref {
    t.ref.(offset := r.offset)
  }

  function ResetAll(t: Template, s: seq<Ref>): seq<Ref> {
    seq(|s|, i requires 0 <= i < |s| => Reset(t, s[i]))
  }

  // The buffers at these offsets as new, but for the saved word.
  function Cleaned(m: Memory, t: Template, s: seq<nat>): Memory {
    map o | o in m :: if o in s then t.buffer.(save := m[o].save) else m[o]
  }

  ghost predicate Known(m: Memory, s: seq<nat>) {
    forall i :: 0 <= i < |s| ==> s[i] in m
  }

  lemma OffsetsJoin(a: seq<Ref>, b: seq<Ref>)
    ensures Offsets(a + b) == Offsets(a) + Offsets(b)
  {
  }

  lemma ResetJoin(t: Template, a: seq<Ref>, b: seq<Ref>)
    ensures ResetAll(t, a + b) == ResetAll(t, a) + ResetAll(t, b)
    ensures Offsets(ResetAll(t, a)) == Offsets(a)
  {
  }

  lemma CleanedTwice(m: Memory, t: Template, a: seq<nat>, b: seq<nat>)
    ensures Cleaned(Cleaned(m, t, a), t, b) == Cleaned(m, t, a + b)
  {
  }

  lemma CleanedNone(m: Memory, t: Template)
    ensures Cleaned(m, t, []) == m
  {
  }

  lemma Clean4(m: Memory, m': Memory, t: Template, o0: nat, o1: nat, o2: nat, o3: nat)
    requires o0 in m && o1 in m && o2 in m && o3 in m
    requires m' == m[o0 := t.buffer][o1 := t.buffer][o2 := t.buffer][o3 := t.buffer]
                    [o0 := t.buffer.(save := m[o0].save)][o1 := t.buffer.(save := m[o1].save)]
                    [o2 := t.buffer.(save := m[o2].save)][o3 := t.buffer.(save := m[o3].save)]
    ensures m' == Cleaned(m, t, [o0, o1, o2, o3])
  {
    assert forall o :: o in [o0, o1, o2, o3] <==> o == o0 || o == o1 || o == o2 || o == o3;
  }

  // ---- packets

  // c lists the references that follow r, whose buffer names first.
  ghost predicate Follows(m: Memory, r: Ref, first: Ref, c: seq<Ref>) {
    if r.nextValid then c != [] && c[0] == first && Linked(m, c) else c == []
  }

  // Each buffer of c but the last names the next one.
  ghost predicate Linked(m: Memory, c: seq<Ref>) {
    forall k :: 0 <= k < |c| ==>
      && c[k].offset in m && (c[k].nextValid <==> k + 1 < |c|)
      && (k + 1 < |c| ==> m[c[k].offset].nextRef == c[k + 1])
  }

  function Flat(cs: seq<seq<Ref>>): seq<Ref> {
    if cs == [] then [] else Flat(cs[..|cs| - 1]) + cs[|cs| - 1]
  }

  // cs lists what follows each of src.
  ghost predicate Packets(m: Memory, src: seq<Ref>, cs: seq<seq<Ref>>) {
    |cs| == |src| && Known(m, Offsets(src)) && forall i :: 0 <= i < |src| ==> PacketAt(m, src, cs, i)
  }

  ghost predicate PacketAt(m: Memory, src: seq<Ref>, cs: seq<seq<Ref>>, i: nat)
    requires i < |src| == |cs|
  {
    src[i].offset in m && Follows(m, src[i], m[src[i].offset].nextRef, cs[i])
  }

  lemma {:induction false} InFlat(cs: seq<seq<Ref>>, i: nat, k: nat)
    requires i < |cs| && k < |cs[i]|
    ensures cs[i][k] in Flat(cs)
  {
    if i < |cs| - 1 {
      InFlat(cs[..|cs| - 1], i, k);
    }
  }

  // Cleaning other buffers leaves a chain alone.
  lemma LinkedFrame(m: Memory, t: Template, s: seq<nat>, c: seq<Ref>)
    requires Linked(m, c) && forall k :: 0 <= k < |c| ==> c[k].offset !in s
    ensures Linked(Cleaned(m, t, s), c)
  {
  }

  // No buffer is freed twice: neither among src nor in what follows it.
  ghost predicate Apart(src: seq<Ref>, cs: seq<seq<Ref>>) {
    Distinct(Offsets(src) + Offsets(Flat(cs)))
  }

  lemma ApartFacts(src: seq<Ref>, cs: seq<seq<Ref>>)
    requires Apart(src, cs)
    ensures Distinct(Offsets(src)) && Distinct(Offsets(Flat(cs)))
    ensures forall x :: x in Flat(cs) ==> x.offset !in Offsets(src)
  {
    var a, b := Offsets(src), Offsets(Flat(cs));
    forall i, j | 0 <= i < j < |a|
      ensures a[i] != a[j]
    {
      assert (a + b)[i] == a[i] && (a + b)[j] == a[j];
    }
    forall i, j | 0 <= i < j < |b|
      ensures b[i] != b[j]
    {
      assert (a + b)[|a| + i] == b[i] && (a + b)[|a| + j] == b[j];
    }
    forall x | x in Flat(cs)
      ensures x.offset !in a
    {
      var j :| 0 <= j < |Flat(cs)| && Flat(cs)[j] == x;
      assert b[j] == x.offset;
      forall i | 0 <= i < |a|
        ensures a[i] != x.offset
      {
        assert (a + b)[i] == a[i] && (a + b)[|a| + j] == b[j];
      }
    }
  }

  // What follows src[i] is still there after the first j of src were cleaned, and
  // so is what its own buffer named, if it was not cleaned yet.
  lemma StillFollows(m: Memory, t: Template, src: seq<Ref>, cs: seq<seq<Ref>>, i: nat, j: nat)
    requires Packets(m, src, cs) && Apart(src, cs) && i < |src| && j <= |src|
    ensures src[i].offset in m && Follows(Cleaned(m, t, Offsets(src[..j])), src[i], m[src[i].offset].nextRef, cs[i])
    ensures j <= i ==> src[i].offset in Cleaned(m, t, Offsets(src[..j]))
                       && Cleaned(m, t, Offsets(src[..j]))[src[i].offset].nextRef == m[src[i].offset].nextRef
  {
    hide Flat, Linked;
    ApartFacts(src, cs);
    assert PacketAt(m, src, cs, i);
    var s := Offsets(src[..j]);
    assert forall k :: 0 <= k < |s| ==> s[k] == Offsets(src)[k];
    forall k | 0 <= k < |cs[i]|
      ensures cs[i][k].offset !in s
    {
      InFlat(cs, i, k);
    }
    if src[i].nextValid {
      LinkedFrame(m, t, s, cs[i]);
    }
    assert Offsets(src)[i] == src[i].offset;
  }

  lemma FlatMore(cs: seq<seq<Ref>>, i: nat)
    requires i < |cs|
    ensures Flat(cs[..i + 1]) == Flat(cs[..i]) + cs[i]
  {
    assert cs[..i + 1][..i] == cs[..i];
  }

  // The list of references while the first i of src have gone behind base.
  function Filled(refs: seq<Ref>, base: nat, t: Template, src: seq<Ref>, i: nat): seq<Ref>
    requires i <= |src| && base + i <= |refs|
  {
    refs[..base] + ResetAll(t, src[..i]) + refs[base + i..]
  }

  lemma FillOne(refs: seq<Ref>, base: nat, t: Template, src: seq<Ref>, i: nat)
    requires i < |src| && base + i < |refs|
    ensures |Filled(refs, base, t, src, i)| == |refs|
    ensures Filled(refs, base, t, src, i)[base + i := Reset(t, src[i])] == Filled(refs, base, t, src, i + 1)
  {
    var a, b := Filled(refs, base, t, src, i), Filled(refs, base, t, src, i + 1);
    assert ResetAll(t, src[..i + 1]) == ResetAll(t, src[..i]) + [Reset(t, src[i])];
    assert refs[base + i..] == [refs[base + i]] + refs[base + i + 1..];
  }

  lemma CleanOne(m: Memory, t: Template, src: seq<Ref>, i: nat)
    requires i < |src|
    ensures Cleaned(Cleaned(m, t, Offsets(src[..i])), t, [src[i].offset]) == Cleaned(m, t, Offsets(src[..i + 1]))
  {
    assert Offsets(src[..i + 1]) == Offsets(src[..i]) + [src[i].offset];
    CleanedTwice(m, t, Offsets(src[..i]), [src[i].offset]);
  }

  // Buffers do not overlap.
  ghost predicate Spaced(m: Memory, size: nat) {
    forall p, q :: p in m && q in m && p < q ==> p + size <= q
  }

  // The free references are those of distinct buffers, all as new.
  ghost predicate ValidOf(t: Template, size: nat, refs: seq<Ref>, m: Memory) {
    && t.ref.offset == 0 && !t.ref.nextValid && 0 < size <= MaxSize
    && Distinct(Offsets(refs)) && Spaced(m, size)
    && forall i :: 0 <= i < |refs| ==> IsNew(t, refs[i], m)
  }

  ghost predicate IsNew(t: Template, r: Ref, m: Memory) {
    r == Reset(t, r) && r.offset in m && m[r.offset] == t.buffer.(save := m[r.offset].save)
  }

  // Half of the largest region: the largest size for which every request is met
  // (SizesThatServe).
  const MaxSize: nat := 0x8_0000

  // What a free takes back.
  function Returned(src: seq<Ref>, freeNext: bool, cs: seq<seq<Ref>>): seq<Ref> {
    if freeNext then src + Flat(cs) else src
  }

  lemma {:induction false} FlatKnown(m: Memory, src: seq<Ref>, cs: seq<seq<Ref>>)
    requires Packets(m, src, cs)
    ensures Known(m, Offsets(Flat(cs)))
  {
    if cs != [] {
      var n := |cs| - 1;
      assert PacketAt(m, src, cs, n);
      forall i | 0 <= i < n
        ensures PacketAt(m, src[..n], cs[..n], i)
      {
        assert PacketAt(m, src, cs, i);
      }
      assert forall i :: 0 <= i < n ==> Offsets(src[..n])[i] == Offsets(src)[i];
      FlatKnown(m, src[..n], cs[..n]);
      OffsetsJoin(Flat(cs[..n]), cs[n]);
    }
  }

  lemma ReturnedFacts(refs: seq<Ref>, m: Memory, src: seq<Ref>, freeNext: bool, cs: seq<seq<Ref>>)
    requires Known(m, Offsets(src)) && (freeNext ==> Packets(m, src, cs))
    requires Distinct(Offsets(refs + Returned(src, freeNext, cs)))
    ensures Known(m, Offsets(Returned(src, freeNext, cs)))
    ensures freeNext ==> Apart(src, cs) && Known(m, Offsets(Flat(cs))) && |src| == |cs|
    ensures src == [] ==> Returned(src, freeNext, cs) == []
  {
    var back := Returned(src, freeNext, cs);
    if freeNext {
      FlatKnown(m, src, cs);
      OffsetsJoin(src, Flat(cs));
      var b, all := Offsets(back), Offsets(refs + back);
      assert forall i :: 0 <= i < |b| ==> b[i] == all[|refs| + i];
    }
  }

  // Free references and returned ones make a valid pool.
  lemma FreedValid(t: Template, size: nat, refs: seq<Ref>, m: Memory, back: seq<Ref>)
    requires ValidOf(t, size, refs, m) && Known(m, Offsets(back)) && Distinct(Offsets(refs + back))
    ensures ValidOf(t, size, refs + ResetAll(t, back), Cleaned(m, t, Offsets(back)))
  {
    var all, m' := refs + ResetAll(t, back), Cleaned(m, t, Offsets(back));
    assert Offsets(all) == Offsets(refs + back);
    forall i | 0 <= i < |all|
      ensures IsNew(t, all[i], m')
    {
      if i < |refs| {
        assert IsNew(t, refs[i], m);
      } else {
        var k := i - |refs|;
        assert all[i] == Reset(t, back[k]);
        assert Offsets(back)[k] == back[k].offset;
      }
    }
  }

  // ---- new regions

  const MaxRegion: nat := 0x10_0000

  // n buffers in nb bytes, halved until the region is small enough.
  function Halve(n: nat, nb: nat): nat
    decreases nb
  {
    if nb <= MaxRegion then n else Halve(n / 2, nb / 2)
  }

  function RoundUp256(n: nat): nat {
    (n + 255) / 256 * 256
  }

  // How many buffers are allocated at once when some are missing.
  function Batch(missing: nat, size: nat): nat {
    Halve(RoundUp256(missing), RoundUp256(missing) * size)
  }

  lemma {:induction false} HalveSome(n: nat, nb: nat, size: nat)
    requires 0 < n && 0 < size <= MaxSize && n * size <= nb < (n + 1) * size
    ensures 0 < Halve(n, nb) <= n && Halve(n, nb) * size <= MaxRegion
    decreases nb
  {
    if nb > MaxRegion {
      Halved(n, nb, size);
      HalveSome(n / 2, nb / 2, size);
    }
  }

  lemma {:induction false} HalveNone(nb: nat)
    ensures Halve(0, nb) == 0
    decreases nb
  {
    if nb > MaxRegion {
      HalveNone(nb / 2);
    }
  }

  lemma HalveMore(n: nat, nb: nat)
    requires nb > MaxRegion
    ensures Halve(n, nb) == Halve(n / 2, nb / 2)
  {
  }

  lemma ManyBytes(p: nat, size: nat)
    requires p > 0 && size > 0
    ensures 2 * (p * size) - p >= 2 * size - 1
  {
    Multiplied(1, p, 2 * size - 1);
    Spread(p, size);
  }

  lemma Spread(p: nat, size: nat)
    requires size > 0
    ensures p * (2 * size - 1) == 2 * (p * size) - p
  {
  }

  // Halving 2^j - 1 rounds down every time; the bytes almost do not.
  lemma {:induction false} HalveOnes(j: nat, nb: nat, size: nat, d: nat)
    requires j > 0 && size > MaxSize && d <= Caps.Pow2(j - 1) && nb >= 2 * (Caps.Pow2(j - 1) * size) - d
    ensures Halve(2 * Caps.Pow2(j - 1) - 1, nb) == 0
    decreases j
  {
    hide Halve, Caps.Pow2;
    var p := Caps.Pow2(j - 1);
    var t := p * size;
    ManyBytes(p, size);
    HalveMore(2 * p - 1, nb);
    assert (2 * p - 1) / 2 == p - 1;
    if j == 1 {
      PowerStep(0);
      HalveNone(nb / 2);
    } else {
      PowerStep(j - 2);
      Products(Caps.Pow2(j - 2), size);
      HalveOnes(j - 1, nb / 2, size, (d + 1) / 2);
    }
  }

  lemma PowerStep(k: nat)
    ensures Caps.Pow2(0) == 1 && Caps.Pow2(k + 1) == 2 * Caps.Pow2(k)
  {
  }

  lemma {:induction false} HalveEven(k: nat, c: nat, n: nat, nb: nat)
    requires nb > MaxRegion && c == Caps.Pow2(k)
    ensures Halve(n * c, nb * c) == Halve(n, nb)
  {
    if k > 0 {
      var p := Caps.Pow2(k - 1);
      Products(p, n);
      Products(p, nb);
      assert n * c == 2 * (n * p) && nb * c == 2 * (nb * p);
      Multiplied(1, p, nb);
      HalveMore(n * c, nb * c);
      HalveEven(k - 1, p, n, nb);
    }
  }

  lemma {:induction false} PowerAbove(n: nat) returns (k: nat)
    requires n > 0
    ensures n <= Caps.Pow2(k) < 2 * n
  {
    if n == 1 {
      k := 0;
    } else {
      var h := PowerAbove((n + 1) / 2);
      k := h + 1;
      if Caps.Pow2(k) >= 2 * n {
        k := h;
      }
    }
  }

  // The bytes of 256 times 2p - 1 buffers.
  lemma ManyBuffers(p: nat, size: nat)
    requires p > 0
    ensures (2 * p - 1) * size == 2 * (p * size) - size
    ensures 256 * (2 * p - 1) * size == (2 * p - 1) * size * 256
  {
    Products(p - 1, size);
  }

  lemma TooLarge(size: nat) returns (missing: nat)
    requires size > MaxSize
    ensures 0 < missing < 1024 * size && Batch(missing, size) == 0
  {
    var k := PowerAbove(size);
    missing := 256 * (2 * Caps.Pow2(k) - 1);
    AllHalvedAway(size, k);
  }

  lemma AllHalvedAway(size: nat, k: nat)
    requires size > MaxSize && Caps.Pow2(k) >= size
    ensures Batch(256 * (2 * Caps.Pow2(k) - 1), size) == 0
  {
    hide Halve, Caps.Pow2;
    var n := 2 * Caps.Pow2(k) - 1;
    ManyBuffers(Caps.Pow2(k), size);
    Multiplied(3, n, size);
    HalvedAway(size, k, n, n * size);
    RoundedUp(n);
  }

  lemma RoundedUp(n: nat)
    ensures RoundUp256(256 * n) == n * 256
  {
  }

  lemma HalvedAway(size: nat, k: nat, n: nat, ns: nat)
    requires size > MaxSize && Caps.Pow2(k) >= size && n == 2 * Caps.Pow2(k) - 1
    requires ns >= 2 * (Caps.Pow2(k) * size) - size && ns > MaxRegion
    ensures Halve(n * 256, ns * 256) == 0
  {
    hide Halve, Caps.Pow2;
    HalveOnes(k + 1, ns, size, size);
    Caps.Pow2Values();
    HalveEven(8, 256, n, ns);
  }

  // The buffers of a size can be had in any number exactly when a buffer takes no
  // more than half of the largest region: else some request, and one for fewer than
  // 1024 times as many buffers as one has bytes, allocates none at a time, without
  // end.
  lemma SizesThatServe(size: nat)
    requires size > 0
    ensures size <= MaxSize <==> forall missing: nat :: missing > 0 ==> Batch(missing, size) > 0
    ensures size > MaxSize ==> exists missing: nat :: 0 < missing < 1024 * size && Batch(missing, size) == 0
  {
    if size <= MaxSize {
      forall missing: nat | missing > 0
        ensures Batch(missing, size) > 0
      {
        var n := RoundUp256(missing);
        Products(n, size);
        HalveSome(n, n * size, size);
      }
    } else {
      var missing := TooLarge(size);
    }
  }

  // No buffer overlaps the region.
  predicate Room(m: Memory, size: nat, offset: nat, n: nat) {
    forall p :: p in m ==> p + size <= offset || offset + n <= p
  }

  lemma {:induction false} BoundOf(s: set<nat>) returns (bound: nat)
    ensures forall x :: x in s ==> x < bound
  {
    if s == {} {
      bound := 0;
    } else {
      var x :| x in s;
      var b := BoundOf(s - {x});
      bound := if x < b then b else x + 1;
      assert forall y :: y in s ==> y == x || y in s - {x};
    }
  }

  lemma RoomExists(m: Memory, size: nat, n: nat)
    ensures exists offset: nat :: Room(m, size, offset, n)
  {
    var bound := BoundOf(m.Keys);
    assert Room(m, size, bound + size, n);
  }

  function Place(offset: nat, k: nat, size: nat): nat {
    offset + k * size
  }

  // References to the n buffers of a region, the last one first.
  function Carved(t: Template, size: nat, offset: nat, n: nat): seq<Ref> {
    seq(n, i requires 0 <= i < n => t.ref.(offset := Place(offset, n - 1 - i, size)))
  }

  // New buffers at these offsets.
  function WithNew(m: Memory, t: Template, s: seq<nat>): Memory {
    map o | o in m.Keys + (set x | x in s) :: if o in s then t.buffer else m[o]
  }

  lemma WithNewTwice(m: Memory, t: Template, a: seq<nat>, b: seq<nat>)
    ensures WithNew(WithNew(m, t, a), t, b) == WithNew(m, t, a + b)
    ensures WithNew(m, t, []) == m
  {
  }

  lemma WithOneMore(m: Memory, t: Template, s: seq<Ref>, i: nat)
    requires i < |s|
    ensures WithNew(m, t, Offsets(s[..i]))[s[i].offset := t.buffer] == WithNew(m, t, Offsets(s[..i + 1]))
  {
    assert Offsets(s[..i + 1]) == Offsets(s[..i]) + [s[i].offset];
    WithNewTwice(m, t, Offsets(s[..i]), [s[i].offset]);
  }

  lemma Steps(i: nat, j: nat, size: nat)
    requires i < j
    ensures i * size + size <= j * size
  {
    assert (i + 1) * size <= j * size;
  }

  lemma CarvedAt(t: Template, size: nat, offset: nat, n: nat)
    ensures forall i :: 0 <= i < n ==> offset <= Carved(t, size, offset, n)[i].offset
                                       && Carved(t, size, offset, n)[i].offset + size <= offset + n * size
    ensures forall i, j :: 0 <= i < j < n ==>
              Carved(t, size, offset, n)[j].offset + size <= Carved(t, size, offset, n)[i].offset
  {
    var c := Carved(t, size, offset, n);
    forall i | 0 <= i < n
      ensures offset <= c[i].offset && c[i].offset + size <= offset + n * size
    {
      assert c[i].offset == Place(offset, n - 1 - i, size);
      Steps(n - 1 - i, n, size);
    }
    forall i, j | 0 <= i < j < n
      ensures c[j].offset + size <= c[i].offset
    {
      assert c[i].offset == Place(offset, n - 1 - i, size) && c[j].offset == Place(offset, n - 1 - j, size);
      Steps(n - 1 - j, n - 1 - i, size);
    }
  }

  lemma CarvedNew(t: Template, size: nat, m: Memory, offset: nat, n: nat, region: nat)
    requires Spaced(m, size) && Room(m, size, offset, region) && n * size <= region && size > 0
    ensures |Carved(t, size, offset, n)| == n && Distinct(Offsets(Carved(t, size, offset, n)))
    ensures forall x :: x in Offsets(Carved(t, size, offset, n)) ==> x !in m
    ensures Spaced(WithNew(m, t, Offsets(Carved(t, size, offset, n))), size)
  {
    CarvedAt(t, size, offset, n);
    var c := Carved(t, size, offset, n);
    var os := Offsets(c);
    var m' := WithNew(m, t, os);
    forall p, q | p in m' && q in m' && p < q
      ensures p + size <= q
    {
      if p in os {
        var i := MemberAt(os, p);
        assert os[i] == c[i].offset;
      }
      if q in os {
        var j := MemberAt(os, q);
        assert os[j] == c[j].offset;
      }
    }
    forall x | x in os
      ensures x !in m
    {
      var i := MemberAt(os, x);
      assert os[i] == c[i].offset;
    }
  }

  lemma DistinctJoin(a: seq<nat>, b: seq<nat>)
    requires Distinct(a) && Distinct(b) && forall x :: x in b ==> x !in a
    ensures Distinct(a + b)
  {
    var c := a + b;
    forall i, j | 0 <= i < j < |c|
      ensures c[i] != c[j]
    {
      if i < |a| <= j {
        assert c[i] in a && c[j] in b;
      }
    }
  }

  // The buffers of a region that had room join a pool.
  lemma CarvedValid(t: Template, size: nat, refs: seq<Ref>, m: Memory, offset: nat, n: nat, region: nat)
    requires ValidOf(t, size, refs, m) && Room(m, size, offset, region) && n * size <= region
    ensures forall x :: x in Offsets(Carved(t, size, offset, n)) ==> x !in m
    ensures ValidOf(t, size, refs + Carved(t, size, offset, n), WithNew(m, t, Offsets(Carved(t, size, offset, n))))
  {
    hide Distinct, Spaced, Room;
    CarvedNew(t, size, m, offset, n, region);
    var c := Carved(t, size, offset, n);
    var os := Offsets(c);
    var m', all := WithNew(m, t, os), refs + c;
    assert forall i :: 0 <= i < |refs| ==> IsNew(t, refs[i], m);
    assert forall i :: 0 <= i < |c| ==> os[i] == c[i].offset;
    assert forall i :: 0 <= i < |refs| ==> Offsets(refs)[i] == refs[i].offset;
    OffsetsJoin(refs, c);
    DistinctJoin(Offsets(refs), os);
    forall i | 0 <= i < |all|
      ensures IsNew(t, all[i], m')
    {
      if i >= |refs| {
        assert os[i - |refs|] == all[i].offset;
      }
    }
  }

  lemma FewerValid(t: Template, size: nat, refs: seq<Ref>, m: Memory, n: nat)
    requires ValidOf(t, size, refs, m) && n <= |refs|
    ensures ValidOf(t, size, refs[..n], m)
    ensures ResetAll(t, refs[n..]) == refs[n..]
  {
    assert forall i :: 0 <= i < n ==> Offsets(refs[..n])[i] == Offsets(refs)[i];
    assert forall i :: 0 <= i < |refs| ==> IsNew(t, refs[i], m);
  }

  // d with s written to every stride-th place.
  function Strided(d: seq<Ref>, s: seq<Ref>, stride: nat): seq<Ref>
    requires stride > 0
  {
    seq(|d|, j requires 0 <= j < |d| => if j % stride == 0 && j / stride < |s| then s[j / stride] else d[j])
  }

  lemma Multiple(i: nat, stride: nat, j: nat)
    requires stride > 0
    ensures j % stride == 0 && j / stride == i <==> j == i * stride
  {
    assert j == j / stride * stride + j % stride;
    if j == i * stride {
      if j / stride < i {
        Steps(j / stride, i, stride);
      } else if j / stride > i {
        Steps(i, j / stride, stride);
      }
    }
  }

  lemma StrideOne(d: seq<Ref>, s: seq<Ref>, stride: nat, i: nat)
    requires stride > 0 && i < |s| && i * stride < |d|
    ensures Strided(d, s[..i], stride)[i * stride := s[i]] == Strided(d, s[..i + 1], stride)
  {
    var a, b := Strided(d, s[..i], stride)[i * stride := s[i]], Strided(d, s[..i + 1], stride);
    forall j | 0 <= j < |d|
      ensures a[j] == b[j]
    {
      Multiple(i, stride, j);
    }
  }

  class BufferPool {
    // Free references; the buffers in memory; what has been found to free next.
    var refs: seq<Ref>
    var mem: Memory
    var nextRefs: seq<Ref>
    var nextCount: nat

    const t: Template
    const size: nat

    ghost predicate Valid()
      reads this
    {
      ValidOf(t, size, refs, mem)
    }

    constructor (t: Template, size: nat)
      requires t.ref.offset == 0 && !t.ref.nextValid && 0 < size <= MaxSize
      ensures Valid() && refs == [] && mem == map[] && this.t == t && this.size == size
    {
      this.t, this.size := t, size;
      refs, mem, nextRefs, nextCount := [], map[], [], 0;
    }

    // ---- allocating

    // How many buffers to allocate at once, and the region they take.
    method RegionFor(missing: nat) returns (nAlloc: nat, nb: nat)
      requires 0 < size <= MaxSize && missing > 0
      ensures 0 < nAlloc < missing + 256 && nAlloc * size <= nb <= MaxRegion && nAlloc == Batch(missing, size)
    {
      nAlloc := RoundUp256(missing);
      nb := nAlloc * size;
      assert nb < (nAlloc + 1) * size;
      while nb > MaxRegion
        invariant 0 < nAlloc < missing + 256 && nAlloc * size <= nb < (nAlloc + 1) * size
        invariant Halve(nAlloc, nb) == Batch(missing, size)
        decreases nb
      {
        Halved(nAlloc, nb, size);
        nAlloc := nAlloc / 2;
        nb := nb / 2;
      }
    }

    // A region of nb bytes somewhere in memory, cut into buffers.
    method Grow(nAlloc: nat, nb: nat) returns (ghost news: seq<Ref>)
      requires Valid() && nAlloc * size <= nb
      modifies this`refs, this`mem
      ensures Valid() && |news| == nAlloc && refs == old(refs) + news && mem == WithNew(old(mem), t, Offsets(news))
      ensures forall x :: x in Offsets(news) ==> x !in old(mem)
    {
      hide WithNew, ValidOf;
      RoomExists(mem, size, nb);
      var offset: nat :| Room(mem, size, offset, nb);
      news := Carved(t, size, offset, nAlloc);
      CarvedValid(t, size, refs, mem, offset, nAlloc, nb);
      Carve(offset, nAlloc);
    }

    method Carve(offset: nat, nAlloc: nat)
      modifies this`refs, this`mem
      ensures refs == old(refs) + Carved(t, size, offset, nAlloc)
      ensures mem == WithNew(old(mem), t, Offsets(Carved(t, size, offset, nAlloc)))
    {
      hide WithNew;
      ghost var refs0, mem0, news := refs, mem, Carved(t, size, offset, nAlloc);
      var ri: nat := |refs|;
      Resize(nAlloc);
      var o: int := offset + (nAlloc - 1) * size;
      WithNewTwice(mem, t, [], []);
      assert Offsets(news[..0]) == [];
      var i := 0;
      while i < nAlloc
        invariant 0 <= i <= nAlloc && ri == |refs0| + i && |refs| == |refs0| + nAlloc
        invariant o == offset + (nAlloc - 1 - i) * size && refs[..ri] == refs0 + news[..i]
        invariant mem == WithNew(mem0, t, Offsets(news[..i]))
      {
        StepDown(nAlloc - 1 - i, size);
        WithOneMore(mem0, t, news, i);
        var r := t.ref.(offset := o);
        assert news[i].offset == Place(offset, nAlloc - 1 - i, size) && news[i] == r;
        refs := refs[ri := r];
        ri := ri + 1;
        o := o - size;
        mem := mem[r.offset := t.buffer];
        i := i + 1;
        assert refs[..ri] == refs0 + news[..i - 1] + [r] == refs0 + news[..i];
      }
      assert refs[..ri] == refs && news[..i] == news;
    }

    // Hands out the last want references, to every stride-th place of dst.
    method AllocRefsStride(dst: array<Ref>, want: nat, stride: nat) returns (ghost handed: seq<Ref>, ghost news: seq<Ref>)
      requires Valid() && stride > 0 && want * stride <= dst.Length
      modifies this`refs, this`mem, dst
      ensures Valid() && |handed| == want && refs + handed == old(refs) + news
      ensures dst[..] == Strided(old(dst[..]), handed, stride)
      ensures mem == WithNew(old(mem), t, Offsets(news)) && forall x :: x in Offsets(news) ==> x !in old(mem)
      ensures if want <= |old(refs)| then news == [] else |refs| < 256
      ensures ValidOf(t, size, refs + handed, mem) && ResetAll(t, handed) == handed
    {
      hide WithNew, ValidOf, Strided;
      news := [];
      WithNewTwice(mem, t, [], []);
      assert refs + news == refs && Offsets(news) == [];
      SizeOk(t, size, refs, mem);
      var got := |refs|;
      while got < want
        invariant Valid() && got == |refs| && refs == old(refs) + news && dst[..] == old(dst[..])
        invariant mem == WithNew(old(mem), t, Offsets(news))
        invariant forall x :: x in Offsets(news) ==> x !in old(mem)
        invariant if want <= |old(refs)| then news == [] else got < want + 256
        decreases want - got
      {
        ghost var mem1, news1 := mem, news;
        var nAlloc, nb := RegionFor(want - got);
        ghost var more := Grow(nAlloc, nb);
        news := news1 + more;
        got := got + nAlloc;
        OffsetsJoin(news1, more);
        WithNewTwice(old(mem), t, Offsets(news1), Offsets(more));
        KnownGrows(old(mem), t, Offsets(news1));
        assert refs == old(refs) + news1 + more;
      }
      handed := refs[got - want..];
      assert refs[got - want..got] == handed;
      CopyRefs(dst, refs[got - want..got], stride);
      FewerValid(t, size, refs, mem, got - want);
      assert refs[..got - want] + handed == refs;
      refs := refs[..got - want];
    }

    // ---- freeing

    method Free1(d: nat, r: Ref) returns (slow: bool, n0: Ref)
      requires d < |refs| && r.offset in mem
      modifies this`refs, this`mem
      ensures refs == old(refs)[d := Reset(t, r)] && mem == Cleaned(old(mem), t, [r.offset])
      ensures slow == r.nextValid && n0 == old(mem)[r.offset].nextRef
    {
      refs := refs[d := t.ref];
      refs := refs[d := refs[d].(offset := r.offset)];
      var b0 := mem[r.offset];
      n0 := b0.nextRef;
      mem := mem[r.offset := t.buffer];
      mem := mem[r.offset := mem[r.offset].(save := b0.save)];
      slow := r.nextValid;
    }

    // All four are read before any is reset.
    method Free4(d: nat, r0: Ref, r1: Ref, r2: Ref, r3: Ref) returns (slow: bool, n0: Ref, n1: Ref, n2: Ref, n3: Ref)
      requires d + 3 < |refs| && r0.offset in mem && r1.offset in mem && r2.offset in mem && r3.offset in mem
      modifies this`refs, this`mem
      ensures refs == old(refs)[d := Reset(t, r0)][d + 1 := Reset(t, r1)][d + 2 := Reset(t, r2)][d + 3 := Reset(t, r3)]
      ensures mem == Cleaned(old(mem), t, [r0.offset, r1.offset, r2.offset, r3.offset])
      ensures n0 == old(mem)[r0.offset].nextRef && n1 == old(mem)[r1.offset].nextRef
      ensures n2 == old(mem)[r2.offset].nextRef && n3 == old(mem)[r3.offset].nextRef
      ensures slow == (r0.nextValid || r1.nextValid || r2.nextValid || r3.nextValid)
    {
      hide Cleaned;
      Put4(d, r0, r1, r2, r3);
      var b0, b1, b2, b3 := mem[r0.offset], mem[r1.offset], mem[r2.offset], mem[r3.offset];
      n0, n1, n2, n3 := b0.nextRef, b1.nextRef, b2.nextRef, b3.nextRef;
      ghost var m := mem;
      mem := mem[r0.offset := t.buffer][r1.offset := t.buffer][r2.offset := t.buffer][r3.offset := t.buffer];
      Restore4(r0.offset, r1.offset, r2.offset, r3.offset, b0.save, b1.save, b2.save, b3.save);
      Clean4(m, mem, t, r0.offset, r1.offset, r2.offset, r3.offset);
      slow := r0.nextValid || r1.nextValid || r2.nextValid || r3.nextValid;
    }

    method Put4(d: nat, r0: Ref, r1: Ref, r2: Ref, r3: Ref)
      requires d + 3 < |refs|
      modifies this`refs
      ensures refs == old(refs)[d := Reset(t, r0)][d + 1 := Reset(t, r1)][d + 2 := Reset(t, r2)][d + 3 := Reset(t, r3)]
    {
      refs := refs[d := t.ref][d + 1 := t.ref][d + 2 := t.ref][d + 3 := t.ref];
      refs := refs[d := refs[d].(offset := r0.offset)];
      refs := refs[d + 1 := refs[d + 1].(offset := r1.offset)];
      refs := refs[d + 2 := refs[d + 2].(offset := r2.offset)];
      refs := refs[d + 3 := refs[d + 3].(offset := r3.offset)];
    }

    // The saved words go back to buffers that were made new.
    method Restore4(o0: nat, o1: nat, o2: nat, o3: nat, s0: nat, s1: nat, s2: nat, s3: nat)
      requires o0 in mem && o1 in mem && o2 in mem && o3 in mem
      requires mem[o0] == t.buffer && mem[o1] == t.buffer && mem[o2] == t.buffer && mem[o3] == t.buffer
      modifies this`mem
      ensures mem == old(mem)[o0 := t.buffer.(save := s0)][o1 := t.buffer.(save := s1)]
                       [o2 := t.buffer.(save := s2)][o3 := t.buffer.(save := s3)]
    {
      mem := mem[o0 := mem[o0].(save := s0)];
      mem := mem[o1 := mem[o1].(save := s1)];
      mem := mem[o2 := mem[o2].(save := s2)];
      mem := mem[o3 := mem[o3].(save := s3)];
    }

    // Notes the references that follow r.
    method AddNext(r: Ref, nextRef: Ref, ghost c: seq<Ref>)
      requires Follows(mem, r, nextRef, c) && nextCount <= |nextRefs|
      modifies this`nextRefs, this`nextCount
      ensures nextCount <= |nextRefs| && nextRefs[..nextCount] == old(nextRefs[..nextCount]) + c
    {
      if !r.nextValid {
        assert nextRefs[..nextCount] + [] == nextRefs[..nextCount];
        return;
      }
      var x := nextRef;
      ghost var k := 0;
      ghost var noted := nextRefs[..nextCount];
      assert noted + c[..0] == noted;
      while true
        invariant 0 <= k < |c| && x == c[k] && nextCount <= |nextRefs| && nextRefs[..nextCount] == noted + c[..k]
        decreases |c| - k
      {
        if nextCount >= |nextRefs| {
          nextRefs := nextRefs + [x];
        }
        nextRefs := nextRefs[nextCount := x];
        nextCount := nextCount + 1;
        assert c[..k + 1] == c[..k] + [x];
        assert nextRefs[..nextCount] == noted + c[..k] + [x];
        if !x.nextValid {
          assert c[..k + 1] == c;
          break;
        }
        x := mem[x.offset].nextRef;
        k := k + 1;
      }
    }

    // How far a free has come: i of src are back, and what follows them is noted.
    ghost predicate Freed(refs0: seq<Ref>, mem0: Memory, base: nat, src: seq<Ref>, cs: seq<seq<Ref>>, i: nat)
      reads this
    {
      && i <= |src| == |cs| && base + |src| <= |refs0| && refs == Filled(refs0, base, t, src, i)
      && mem == Cleaned(mem0, t, Offsets(src[..i]))
      && nextCount <= |nextRefs| && nextRefs[..nextCount] == Flat(cs[..i])
    }

    method FreeOne(base: nat, src: seq<Ref>, i: nat, ghost refs0: seq<Ref>, ghost mem0: Memory, ghost cs: seq<seq<Ref>>)
      requires Freed(refs0, mem0, base, src, cs, i) && i < |src| && Packets(mem0, src, cs) && Apart(src, cs)
      modifies this`refs, this`mem, this`nextRefs, this`nextCount
      ensures Freed(refs0, mem0, base, src, cs, i + 1)
    {
      hide Packets, Apart, Follows, Cleaned, Filled, Flat, Offsets;
      StillFollows(mem0, t, src, cs, i, i);
      StillFollows(mem0, t, src, cs, i, i + 1);
      FillOne(refs0, base, t, src, i);
      CleanOne(mem0, t, src, i);
      FlatMore(cs, i);
      var slow, n0 := Free1(base + i, src[i]);
      NoneFollow(mem0, t, src, cs, i);
      if slow {
        AddNext(src[i], n0, cs[i]);
      }
    }

    method FreeFour(base: nat, src: seq<Ref>, i: nat, ghost refs0: seq<Ref>, ghost mem0: Memory, ghost cs: seq<seq<Ref>>)
      requires Freed(refs0, mem0, base, src, cs, i) && i + 4 <= |src| && Packets(mem0, src, cs) && Apart(src, cs)
      modifies this`refs, this`mem, this`nextRefs, this`nextCount
      ensures Freed(refs0, mem0, base, src, cs, i + 4)
    {
      hide Packets, Apart, Follows, Cleaned, Filled, Flat, Offsets;
      FourFollow(mem0, t, src, cs, i);
      FillFour(refs0, base, t, src, i);
      CleanFour(mem0, t, src, i);
      FlatFour(cs, i);
      var slow, n0, n1, n2, n3 := Free4(base + i, src[i], src[i + 1], src[i + 2], src[i + 3]);
      ghost var f := nextRefs[..nextCount];
      if slow {
        AddNext(src[i], n0, cs[i]);
        AddNext(src[i + 1], n1, cs[i + 1]);
        AddNext(src[i + 2], n2, cs[i + 2]);
        AddNext(src[i + 3], n3, cs[i + 3]);
      } else {
        NoneFollow(mem0, t, src, cs, i);
        NoneFollow(mem0, t, src, cs, i + 1);
        NoneFollow(mem0, t, src, cs, i + 2);
        NoneFollow(mem0, t, src, cs, i + 3);
      }
    }

    // Frees src to the places from base on, and notes what follows.
    method FreeRefsNext(base: nat, src: seq<Ref>, ghost cs: seq<seq<Ref>>)
      requires base + |src| == |refs| && Packets(mem, src, cs) && Apart(src, cs) && nextCount == 0
      modifies this`refs, this`mem, this`nextRefs, this`nextCount
      ensures refs == old(refs)[..base] + ResetAll(t, src) && mem == Cleaned(old(mem), t, Offsets(src))
      ensures nextCount <= |nextRefs| && nextRefs[..nextCount] == Flat(cs)
    {
      hide Packets, Apart, Cleaned, Filled, Flat;
      var i: nat, n: nat := 0, |src|;
      FreeStart(refs, base, t, src, mem, cs);
      assert nextRefs[..nextCount] == [];
      while n >= 4
        invariant i + n == |src| && Freed(old(refs), old(mem), base, src, cs, i)
      {
        FreeFour(base, src, i, old(refs), old(mem), cs);
        i, n := i + 4, n - 4;
      }
      while n > 0
        invariant i + n == |src| && Freed(old(refs), old(mem), base, src, cs, i)
      {
        FreeOne(base, src, i, old(refs), old(mem), cs);
        i, n := i + 1, n - 1;
      }
      FillEnd(old(refs), base, t, src);
      assert src[..i] == src && cs[..i] == cs;
    }

    // The same without following.
    method FreeRefsNoNext(base: nat, src: seq<Ref>)
      requires base + |src| == |refs| && Known(mem, Offsets(src))
      modifies this`refs, this`mem
      ensures refs == old(refs)[..base] + ResetAll(t, src) && mem == Cleaned(old(mem), t, Offsets(src))
    {
      hide Cleaned, Filled, Known;
      ghost var refs0, mem0 := refs, mem;
      var i: nat, n: nat := 0, |src|;
      FillStart(refs, base, t, src);
      CleanedNone(mem, t);
      assert Offsets(src[..0]) == [];
      while n >= 4
        invariant i + n == |src| && refs == Filled(refs0, base, t, src, i) && mem == Cleaned(mem0, t, Offsets(src[..i]))
      {
        KnownAt(mem0, t, src, i, i);
        KnownAt(mem0, t, src, i + 1, i);
        KnownAt(mem0, t, src, i + 2, i);
        KnownAt(mem0, t, src, i + 3, i);
        FillFour(refs0, base, t, src, i);
        CleanFour(mem0, t, src, i);
        var slow, n0, n1, n2, n3 := Free4(base + i, src[i], src[i + 1], src[i + 2], src[i + 3]);
        i, n := i + 4, n - 4;
      }
      while n > 0
        invariant i + n == |src| && refs == Filled(refs0, base, t, src, i) && mem == Cleaned(mem0, t, Offsets(src[..i]))
      {
        KnownAt(mem0, t, src, i, i);
        FillOne(refs0, base, t, src, i);
        CleanOne(mem0, t, src, i);
        var slow, n0 := Free1(base + i, src[i]);
        i, n := i + 1, n - 1;
      }
      FillEnd(refs0, base, t, src);
      assert src[..i] == src;
    }

    // Room for n more references, with whatever was there.
    method Resize(n: nat)
      modifies this`refs
      ensures |refs| == |old(refs)| + n && refs[..|old(refs)|] == old(refs)
    {
      var junk: Ref := *;
      refs := refs + seq(n, _ => junk);
    }

    // Takes back src, and what follows them if asked to.
    method FreeRefs(src: seq<Ref>, freeNext: bool, ghost cs: seq<seq<Ref>>)
      requires Valid() && Known(mem, Offsets(src)) && (freeNext ==> Packets(mem, src, cs))
      requires Distinct(Offsets(refs + Returned(src, freeNext, cs)))
      modifies this`refs, this`mem, this`nextRefs, this`nextCount
      ensures refs == old(refs) + ResetAll(t, Returned(src, freeNext, cs))
      ensures mem == Cleaned(old(mem), t, Offsets(Returned(src, freeNext, cs)))
      ensures Valid()
    {
      hide Packets, Cleaned, Filled, Flat, Known, ValidOf, Distinct;
      ghost var back := Returned(src, freeNext, cs);
      ReturnedFacts(refs, mem, src, freeNext, cs);
      CleanedNone(mem, t);
      if |src| == 0 {
        assert refs + ResetAll(t, back) == refs;
        return;
      }
      ghost var mem0 := mem;
      var initialLen := |refs|;
      Resize(|src|);
      if !freeNext {
        FreeRefsNoNext(initialLen, src);
      } else {
        nextCount := 0;
        FreeRefsNext(initialLen, src, cs);
        KnownStays(mem0, t, Offsets(src), Offsets(Flat(cs)));
        CleanedTwice(mem0, t, Offsets(src), Offsets(Flat(cs)));
        OffsetsJoin(src, Flat(cs));
        ResetJoin(t, src, Flat(cs));
        if nextCount > 0 {
          var l := |refs|;
          Resize(nextCount);
          FreeRefsNoNext(l, nextRefs[..nextCount]);
        } else {
          assert ResetAll(t, Flat(cs)) == [] && Offsets(Flat(cs)) == [];
          CleanedNone(mem, t);
        }
      }
      FreedValid(t, size, old(refs), mem0, back);
    }
  }

  // Copies src to every stride-th place.
  method CopyRefs(dst: array<Ref>, src: seq<Ref>, stride: nat)
    requires stride > 0 && |src| * stride <= dst.Length
    modifies dst
    ensures dst[..] == Strided(old(dst[..]), src, stride)
  {
    ghost var d := dst[..];
    if stride == 1 {
      forall j | 0 <= j < |src| {
        dst[j] := src[j];
      }
      assert forall j :: 0 <= j < |d| ==> j % 1 == 0 && j / 1 == j;
    } else {
      CopyStrided(dst, src, stride);
    }
  }

  // Four at a time.
  method CopyStrided(dst: array<Ref>, src: seq<Ref>, stride: nat)
    requires stride > 0 && |src| * stride <= dst.Length
    modifies dst
    ensures dst[..] == Strided(old(dst[..]), src, stride)
  {
    hide Strided;
    ghost var d := dst[..];
    var i, ri, n := 0, 0, |src|;
    StridedNone(d, src, stride);
    while i + 4 <= n
      invariant 0 <= i <= n && ri == i * stride && dst[..] == Strided(d, src[..i], stride)
    {
      FourPlaces(i, stride);
      Steps(i + 3, n, stride);
      StrideFour(d, src, stride, i);
      WriteFour(dst, ri, stride, src, i);
      i := i + 4;
      ri := ri + 4 * stride;
    }
    while i < n
      invariant 0 <= i <= n && ri == i * stride && dst[..] == Strided(d, src[..i], stride)
    {
      Steps(i, n, stride);
      StrideOne(d, src, stride, i);
      dst[ri + 0 * stride] := src[i];
      i := i + 1;
      ri := ri + 1 * stride;
    }
    assert src[..i] == src;
  }

  method WriteFour(dst: array<Ref>, ri: nat, stride: nat, src: seq<Ref>, i: nat)
    requires stride > 0 && ri + 3 * stride < dst.Length && i + 4 <= |src|
    modifies dst
    ensures dst[..] == old(dst[..])[ri := src[i]][ri + stride := src[i + 1]]
                         [ri + 2 * stride := src[i + 2]][ri + 3 * stride := src[i + 3]]
  {
    dst[ri + 0 * stride] := src[i];
    dst[ri + 1 * stride] := src[i + 1];
    dst[ri + 2 * stride] := src[i + 2];
    dst[ri + 3 * stride] := src[i + 3];
  }

  lemma FourPlaces(i: nat, stride: nat)
    ensures (i + 1) * stride == i * stride + stride && (i + 2) * stride == i * stride + 2 * stride
    ensures (i + 3) * stride == i * stride + 3 * stride && (i + 4) * stride == i * stride + 4 * stride
  {
  }

  lemma StridedNone(d: seq<Ref>, s: seq<Ref>, stride: nat)
    requires stride > 0
    ensures Strided(d, s[..0], stride) == d
  {
  }

  lemma StrideFour(d: seq<Ref>, s: seq<Ref>, stride: nat, i: nat)
    requires stride > 0 && i + 4 <= |s| && i * stride + 3 * stride < |d|
    ensures |Strided(d, s[..i], stride)| == |d|
    ensures Strided(d, s[..i], stride)[i * stride := s[i]][i * stride + stride := s[i + 1]]
              [i * stride + 2 * stride := s[i + 2]][i * stride + 3 * stride := s[i + 3]] == Strided(d, s[..i + 4], stride)
  {
    FourPlaces(i, stride);
    StrideOne(d, s, stride, i);
    StrideOne(d, s, stride, i + 1);
    StrideOne(d, s, stride, i + 2);
    StrideOne(d, s, stride, i + 3);
  }

  lemma KnownAt(m: Memory, t: Template, src: seq<Ref>, i: nat, j: nat)
    requires Known(m, Offsets(src)) && i < |src| && j <= |src|
    ensures src[i].offset in Cleaned(m, t, Offsets(src[..j]))
  {
    assert Offsets(src)[i] == src[i].offset;
  }

  lemma SizeOk(t: Template, size: nat, refs: seq<Ref>, m: Memory)
    requires ValidOf(t, size, refs, m)
    ensures 0 < size <= MaxSize
  {
  }

  lemma Multiplied(a: nat, b: nat, size: nat)
    ensures a <= b ==> a * size <= b * size
  {
  }

  lemma Products(h: nat, size: nat)
    ensures 2 * h * size == 2 * (h * size) && (2 * h + 1) * size == 2 * (h * size) + size
    ensures (2 * h + 2) * size == 2 * (h * size) + 2 * size && (h + 1) * size == h * size + size
    ensures h == 0 ==> h * size == 0
  {
  }

  lemma Halved(n: nat, nb: nat, size: nat)
    requires 0 < n && 0 < size <= MaxSize && n * size <= nb < (n + 1) * size && nb > MaxRegion
    ensures 0 < n / 2 < n && n / 2 * size <= nb / 2 < (n / 2 + 1) * size
  {
    var h := n / 2;
    Products(h, size);
    if n % 2 == 0 {
      assert n * size == 2 * h * size && (n + 1) * size == (2 * h + 1) * size;
    } else {
      assert n * size == (2 * h + 1) * size && (n + 1) * size == (2 * h + 2) * size;
    }
  }

  lemma StepDown(k: int, size: nat)
    requires k >= 0
    ensures k * size >= 0 && (k - 1) * size == k * size - size
  {
  }

  lemma KnownGrows(m: Memory, t: Template, s: seq<nat>)
    ensures forall o :: o in m ==> o in WithNew(m, t, s)
  {
  }

  lemma KnownStays(m: Memory, t: Template, s: seq<nat>, u: seq<nat>)
    requires Known(m, u)
    ensures Known(Cleaned(m, t, s), u)
  {
  }

  lemma FreeStart(refs: seq<Ref>, base: nat, t: Template, src: seq<Ref>, m: Memory, cs: seq<seq<Ref>>)
    requires Packets(m, src, cs) && base + |src| <= |refs|
    ensures |cs| == |src| && Filled(refs, base, t, src, 0) == refs
    ensures Cleaned(m, t, Offsets(src[..0])) == m && Flat(cs[..0]) == []
  {
    FillStart(refs, base, t, src);
    CleanedNone(m, t);
    assert Offsets(src[..0]) == [];
  }

  lemma FillStart(refs: seq<Ref>, base: nat, t: Template, src: seq<Ref>)
    requires base + |src| <= |refs|
    ensures Filled(refs, base, t, src, 0) == refs
  {
    assert ResetAll(t, src[..0]) == [];
  }

  lemma FillEnd(refs: seq<Ref>, base: nat, t: Template, src: seq<Ref>)
    requires base + |src| == |refs|
    ensures Filled(refs, base, t, src, |src|) == refs[..base] + ResetAll(t, src)
  {
    assert src[..|src|] == src && refs[|refs|..] == [];
  }

  lemma FillFour(refs: seq<Ref>, base: nat, t: Template, src: seq<Ref>, i: nat)
    requires i + 4 <= |src| && base + i + 4 <= |refs|
    ensures |Filled(refs, base, t, src, i)| == |refs|
    ensures Filled(refs, base, t, src, i)[base + i := Reset(t, src[i])][base + i + 1 := Reset(t, src[i + 1])]
              [base + i + 2 := Reset(t, src[i + 2])][base + i + 3 := Reset(t, src[i + 3])] == Filled(refs, base, t, src, i + 4)
  {
    hide Filled;
    FillOne(refs, base, t, src, i);
    FillOne(refs, base, t, src, i + 1);
    FillOne(refs, base, t, src, i + 2);
    FillOne(refs, base, t, src, i + 3);
  }

  lemma CleanFour(m: Memory, t: Template, src: seq<Ref>, i: nat)
    requires i + 4 <= |src|
    ensures Cleaned(Cleaned(m, t, Offsets(src[..i])), t, [src[i].offset, src[i + 1].offset, src[i + 2].offset, src[i + 3].offset])
            == Cleaned(m, t, Offsets(src[..i + 4]))
  {
    hide Cleaned;
    var four := [src[i].offset, src[i + 1].offset, src[i + 2].offset, src[i + 3].offset];
    assert Offsets(src[..i + 4]) == Offsets(src[..i]) + four;
    CleanedTwice(m, t, Offsets(src[..i]), four);
  }

  lemma FlatFour(cs: seq<seq<Ref>>, i: nat)
    requires i + 4 <= |cs|
    ensures Flat(cs[..i + 4]) == Flat(cs[..i]) + cs[i] + cs[i + 1] + cs[i + 2] + cs[i + 3]
  {
    FlatMore(cs, i);
    FlatMore(cs, i + 1);
    FlatMore(cs, i + 2);
    FlatMore(cs, i + 3);
  }

  lemma FourFollow(m: Memory, t: Template, src: seq<Ref>, cs: seq<seq<Ref>>, i: nat)
    requires Packets(m, src, cs) && Apart(src, cs) && i + 4 <= |src| == |cs|
    ensures forall k :: i <= k < i + 4 ==>
              && src[k].offset in m && src[k].offset in Cleaned(m, t, Offsets(src[..i]))
              && Follows(Cleaned(m, t, Offsets(src[..i + 4])), src[k], Cleaned(m, t, Offsets(src[..i]))[src[k].offset].nextRef, cs[k])
  {
    hide Packets, Apart, Follows, Cleaned;
    forall k | i <= k < i + 4
      ensures src[k].offset in m && src[k].offset in Cleaned(m, t, Offsets(src[..i]))
      ensures Follows(Cleaned(m, t, Offsets(src[..i + 4])), src[k], Cleaned(m, t, Offsets(src[..i]))[src[k].offset].nextRef, cs[k])
    {
      StillFollows(m, t, src, cs, k, i);
      StillFollows(m, t, src, cs, k, i + 4);
    }
  }

  lemma NoneFollow(m: Memory, t: Template, src: seq<Ref>, cs: seq<seq<Ref>>, i: nat)
    requires Packets(m, src, cs) && i < |src|
    ensures !src[i].nextValid ==> cs[i] == [] && forall f: seq<Ref> :: f + cs[i] == f
  {
    assert PacketAt(m, src, cs, i);
  }
}

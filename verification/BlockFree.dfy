// Free lists of the allocator, segregated by block size.  Sizes from a
// threshold on share list 0.  Each free element remembers its place.
module BlockFree {
  import opened Basics
  import opened BlockChain

  function ClassOf(size: int, threshold: nat): nat {
    if size >= threshold || size < 0 then 0 else size
  }

  // e is where its mark says, in the list for its size.
  ghost predicate Listed(elts: seq<Elt>, free: seq<seq<nat>>, len: nat, threshold: nat, e: nat)
    requires e < |elts|
  {
    var c := ClassOf(SizeOf(elts, len, e), threshold);
    c < |free| && elts[e].free < |free[c]| && free[c][elts[e].free] == e
  }

  // The k-th entry of list c is a free block of that class whose mark is k.
  ghost predicate Backed(elts: seq<Elt>, free: seq<seq<nat>>, chain: seq<nat>, len: nat, threshold: nat, c: nat, k: nat)
    requires c < |free| && k < |free[c]|
  {
    var e := free[c][k];
    e in chain && e < |elts| && elts[e].free == k && k != NIL && ClassOf(SizeOf(elts, len, e), threshold) == c
  }

  ghost predicate AllListed(elts: seq<Elt>, free: seq<seq<nat>>, chain: seq<nat>, len: nat, threshold: nat) {
    forall e :: e in chain && e < |elts| && IsFree(elts, e) ==> Listed(elts, free, len, threshold, e)
  }

  ghost predicate AllBacked(elts: seq<Elt>, free: seq<seq<nat>>, chain: seq<nat>, len: nat, threshold: nat) {
    forall c, k :: 0 <= c < |free| && 0 <= k < |free[c]| ==> Backed(elts, free, chain, len, threshold, c, k)
  }

  ghost predicate FreeOk(elts: seq<Elt>, free: seq<seq<nat>>, chain: seq<nat>, len: nat, threshold: nat) {
    |free| <= threshold && AllListed(elts, free, chain, len, threshold) && AllBacked(elts, free, chain, len, threshold)
  }

  // m differs from elts in free marks only.
  ghost predicate SameLinks(elts: seq<Elt>, m: seq<Elt>) {
    && |m| == |elts|
    && forall y: nat :: y < |elts| ==> m[y].offset == elts[y].offset && m[y].next == elts[y].next && m[y].prev == elts[y].prev
  }

  lemma SameLinksSizes(elts: seq<Elt>, m: seq<Elt>, len: nat)
    requires SameLinks(elts, m)
    ensures forall y: nat :: y < |elts| ==> SizeOf(m, len, y) == SizeOf(elts, len, y)
  {
  }

  // ---- taking an entry out: the last entry of the list fills the hole

  function UnlistElts(elts: seq<Elt>, free: seq<seq<nat>>, c: nat, k: nat): seq<Elt>
    requires c < |free| && k < |free[c]| && free[c][k] < |elts| && free[c][|free[c]| - 1] < |elts|
  {
    var l := |free[c]|;
    var g := free[c][l - 1];
    var a := if k < l - 1 then elts[g := elts[g].(free := k)] else elts;
    a[free[c][k] := a[free[c][k]].(free := NIL)]
  }

  function UnlistFree(free: seq<seq<nat>>, c: nat, k: nat): seq<seq<nat>>
    requires c < |free| && k < |free[c]|
  {
    var l := |free[c]|;
    free[c := free[c][k := free[c][l - 1]][..l - 1]]
  }

  lemma UnlistFrame(elts: seq<Elt>, free: seq<seq<nat>>, chain: seq<nat>, len: nat, threshold: nat, c: nat, k: nat)
    requires FreeOk(elts, free, chain, len, threshold) && c < |free| && k < |free[c]|
    ensures free[c][k] < |elts| && free[c][|free[c]| - 1] < |elts|
    ensures var m, e, g := UnlistElts(elts, free, c, k), free[c][k], free[c][|free[c]| - 1];
            && SameLinks(elts, m) && m[e].free == NIL && IsFree(elts, e) && (g == e <==> k == |free[c]| - 1)
            && (g != e ==> m[g].free == k && k != NIL)
            && (forall y: nat :: y < |elts| && y != e && y != g ==> m[y].free == elts[y].free)
            && (forall y: nat :: y < |elts| && y != e ==> (IsFree(m, y) <==> IsFree(elts, y)))
  {
    assert Backed(elts, free, chain, len, threshold, c, k);
    assert Backed(elts, free, chain, len, threshold, c, |free[c]| - 1);
  }

  lemma UnlistOk(elts: seq<Elt>, free: seq<seq<nat>>, chain: seq<nat>, len: nat, threshold: nat, c: nat, k: nat)
    requires FreeOk(elts, free, chain, len, threshold) && c < |free| && k < |free[c]|
    ensures free[c][k] < |elts| && free[c][|free[c]| - 1] < |elts|
    ensures FreeOk(UnlistElts(elts, free, c, k), UnlistFree(free, c, k), chain, len, threshold)
  {
    UnlistFrame(elts, free, chain, len, threshold, c, k);
    var e, l := free[c][k], |free[c]|;
    var g := free[c][l - 1];
    var m, f := UnlistElts(elts, free, c, k), UnlistFree(free, c, k);
    SameLinksSizes(elts, m, len);
    assert Backed(elts, free, chain, len, threshold, c, k) && Backed(elts, free, chain, len, threshold, c, l - 1);
    forall y | y in chain && y < |m| && IsFree(m, y)
      ensures Listed(m, f, len, threshold, y)
    {
      assert Listed(elts, free, len, threshold, y);
    }
    forall d, j | 0 <= d < |f| && 0 <= j < |f[d]|
      ensures Backed(m, f, chain, len, threshold, d, j)
    {
      if d == c && j == k {
        assert f[d][j] == g;
      } else {
        assert f[d][j] == free[d][j];
        assert Backed(elts, free, chain, len, threshold, d, j);
      }
    }
  }

  // ---- putting an entry in

  // Grow the vector of lists so that index i is valid.
  function Validated(free: seq<seq<nat>>, i: nat): (r: seq<seq<nat>>)
    ensures |r| == if i < |free| then |free| else i + 1
    ensures forall c :: 0 <= c < |r| ==> r[c] == if c < |free| then free[c] else []
  {
    if i < |free| then free else free + seq(i + 1 - |free|, _ => [])
  }

  function PushElts(elts: seq<Elt>, free: seq<seq<nat>>, c: nat, e: nat): seq<Elt>
    requires e < |elts|
  {
    elts[e := elts[e].(free := |Validated(free, c)[c]|)]
  }

  function PushFree(free: seq<seq<nat>>, c: nat, e: nat): seq<seq<nat>> {
    var f := Validated(free, c);
    f[c := f[c] + [e]]
  }

  lemma {:induction false} DistinctFits(s: seq<nat>, n: nat)
    requires Distinct(s) && forall x :: x in s ==> x < n
    ensures |s| <= n
    decreases n
  {
    assert s != [] ==> s[0] in s;
    if n == 0 {
    } else if n - 1 in s {
      var i :| 0 <= i < |s| && s[i] == n - 1;
      WithoutMembers(s, i);
      DistinctFits(Without(s, i), n - 1);
    } else {
      DistinctFits(s, n - 1);
    }
  }

  lemma ListFits(elts: seq<Elt>, free: seq<seq<nat>>, chain: seq<nat>, len: nat, threshold: nat, c: nat)
    requires AllBacked(elts, free, chain, len, threshold) && c < |free|
    ensures Distinct(free[c]) && |free[c]| <= |elts|
  {
    forall i, j | 0 <= i < j < |free[c]|
      ensures free[c][i] != free[c][j]
    {
      assert Backed(elts, free, chain, len, threshold, c, i) && Backed(elts, free, chain, len, threshold, c, j);
    }
    forall x | x in free[c]
      ensures x < |elts|
    {
      var i :| 0 <= i < |free[c]| && free[c][i] == x;
      assert Backed(elts, free, chain, len, threshold, c, i);
    }
    DistinctFits(free[c], |elts|);
  }

  lemma PushOk(elts: seq<Elt>, free: seq<seq<nat>>, chain: seq<nat>, len: nat, threshold: nat, e: nat)
    requires FreeOk(elts, free, chain, len, threshold) && |elts| < NIL
    requires e in chain && e < |elts| && !IsFree(elts, e) && SizeOf(elts, len, e) > 0 && threshold > 0
    ensures var c := ClassOf(SizeOf(elts, len, e), threshold);
            FreeOk(PushElts(elts, free, c, e), PushFree(free, c, e), chain, len, threshold)
    ensures var c := ClassOf(SizeOf(elts, len, e), threshold);
            SameLinks(elts, PushElts(elts, free, c, e)) && IsFree(PushElts(elts, free, c, e), e)
  {
    var c := ClassOf(SizeOf(elts, len, e), threshold);
    if c < |free| {
      ListFits(elts, free, chain, len, threshold, c);
    }
    var m, f := PushElts(elts, free, c, e), PushFree(free, c, e);
    SameLinksSizes(elts, m, len);
    forall y | y in chain && y < |m| && IsFree(m, y)
      ensures Listed(m, f, len, threshold, y)
    {
      assert y == e || Listed(elts, free, len, threshold, y);
    }
    forall d, j | 0 <= d < |f| && 0 <= j < |f[d]|
      ensures Backed(m, f, chain, len, threshold, d, j)
    {
      if d < |free| && j < |free[d]| {
        assert f[d][j] == free[d][j];
        assert Backed(elts, free, chain, len, threshold, d, j);
      }
    }
  }

  // ---- the lists depend on the free blocks and their sizes only

  ghost predicate SameFreeBlocks(elts: seq<Elt>, chain: seq<nat>, len: nat, m: seq<Elt>, chain': seq<nat>, len': nat) {
    && (forall e :: e in chain && e < |elts| && IsFree(elts, e) ==>
          e in chain' && e < |m| && m[e].free == elts[e].free && SizeOf(m, len', e) == SizeOf(elts, len, e))
    && (forall e :: e in chain' && e < |m| && IsFree(m, e) ==> e in chain && e < |elts| && elts[e].free == m[e].free)
  }

  lemma FreeMoved(elts: seq<Elt>, chain: seq<nat>, len: nat, m: seq<Elt>, chain': seq<nat>, len': nat, free: seq<seq<nat>>, threshold: nat)
    requires FreeOk(elts, free, chain, len, threshold) && SameFreeBlocks(elts, chain, len, m, chain', len')
    ensures FreeOk(m, free, chain', len', threshold)
  {
    forall e | e in chain' && e < |m| && IsFree(m, e)
      ensures Listed(m, free, len', threshold, e)
    {
      assert Listed(elts, free, len, threshold, e);
    }
    forall c, k | 0 <= c < |free| && 0 <= k < |free[c]|
      ensures Backed(m, free, chain', len', threshold, c, k)
    {
      assert Backed(elts, free, chain, len, threshold, c, k);
    }
  }

  // ---- the threshold may rise only past sizes that list 0 does not hold

  // Every member of list 0 is at least of size t.
  ghost predicate LargeOnly(elts: seq<Elt>, free: seq<seq<nat>>, len: nat, t: nat) {
    forall k :: |free| > 0 && 0 <= k < |free[0]| && free[0][k] < |elts| ==> SizeOf(elts, len, free[0][k]) >= t
  }

  lemma RaiseThreshold(elts: seq<Elt>, free: seq<seq<nat>>, chain: seq<nat>, len: nat, t: nat, t': nat)
    requires ChainOk(elts, chain, len) && FreeOk(elts, free, chain, len, t) && t <= t'
    ensures FreeOk(elts, free, chain, len, t') <==> LargeOnly(elts, free, len, t')
  {
    SizesPositive(elts, chain, len);
    if LargeOnly(elts, free, len, t') {
      RaiseLists(elts, free, chain, len, t, t');
    }
    if FreeOk(elts, free, chain, len, t') {
      forall k | |free| > 0 && 0 <= k < |free[0]| && free[0][k] < |elts|
        ensures SizeOf(elts, len, free[0][k]) >= t'
      {
        assert Backed(elts, free, chain, len, t', 0, k);
      }
    }
  }

  lemma SizesPositive(elts: seq<Elt>, chain: seq<nat>, len: nat)
    requires ChainOk(elts, chain, len)
    ensures forall e :: e in chain ==> e < |elts| && SizeOf(elts, len, e) > 0
  {
    forall e | e in chain
      ensures e < |elts| && SizeOf(elts, len, e) > 0
    {
      var i :| 0 <= i < |chain| && chain[i] == e;
      assert BlockAt(elts, chain, len, i);
    }
  }

  lemma RaiseLists(elts: seq<Elt>, free: seq<seq<nat>>, chain: seq<nat>, len: nat, t: nat, t': nat)
    requires FreeOk(elts, free, chain, len, t) && t <= t' && LargeOnly(elts, free, len, t')
    requires forall e :: e in chain ==> e < |elts| && SizeOf(elts, len, e) > 0
    ensures FreeOk(elts, free, chain, len, t')
  {
    forall e | e in chain && e < |elts| && IsFree(elts, e)
      ensures Listed(elts, free, len, t', e)
    {
      assert Listed(elts, free, len, t, e);
    }
    forall c, k | 0 <= c < |free| && 0 <= k < |free[c]|
      ensures Backed(elts, free, chain, len, t', c, k)
    {
      assert Backed(elts, free, chain, len, t, c, k);
    }
  }

  // ---- removal looks the block up by its size and the number of lists

  function ListFor(free: seq<seq<nat>>, size: nat): nat {
    if size >= |free| then 0 else size
  }

  predicate Found(elts: seq<Elt>, free: seq<seq<nat>>, e: nat, size: nat)
    requires e < |elts|
  {
    var c := ListFor(free, size);
    c < |free| && elts[e].free < |free[c]| && free[c][elts[e].free] == e
  }

  lemma RemovalFinds(elts: seq<Elt>, free: seq<seq<nat>>, chain: seq<nat>, len: nat, threshold: nat, e: nat)
    requires FreeOk(elts, free, chain, len, threshold) && e in chain && e < |elts| && IsFree(elts, e) && SizeOf(elts, len, e) > 0
    ensures Found(elts, free, e, SizeOf(elts, len, e))
    ensures ListFor(free, SizeOf(elts, len, e)) == ClassOf(SizeOf(elts, len, e), threshold)
  {
    assert Listed(elts, free, len, threshold, e);
  }

  // After a free, removal finds every free block of the chain exactly when the
  // vector of lists did not grow past the size of a block already in list 0.
  lemma FreeEltExact(elts: seq<Elt>, free: seq<seq<nat>>, chain: seq<nat>, len: nat, maxSize: nat, e: nat)
    requires ChainOk(elts, chain, len) && FreeOk(elts, free, chain, len, |free|) && |free| <= maxSize + 1 && |elts| < NIL
    requires e in chain && e < |elts| && !IsFree(elts, e)
    ensures var size := SizeOf(elts, len, e);
            var c := if size > maxSize || size < 0 then 0 else size;
            var m, f := PushElts(elts, free, c, e), PushFree(free, c, e);
            (forall y :: y in chain && y < |m| && IsFree(m, y) ==> Found(m, f, y, Extent(m, len, y)))
            <==> (size > maxSize || size < |free| || LargeOnly(elts, free, len, size + 1))
  {
    hide FreeOk, ChainOk, LargeOnly, Found;
    SizesPositive(elts, chain, len);
    var size: nat := SizeOf(elts, len, e);
    var c := if size > maxSize then 0 else size;
    var m, f := PushElts(elts, free, c, e), PushFree(free, c, e);
    if size > maxSize || size < |free| || LargeOnly(elts, free, len, size + 1) {
      var t := if size > maxSize || size < |free| then if |free| == 0 then 1 else |free| else size + 1;
      EmptyListsLarge(elts, free, len, t);
      RaiseThreshold(elts, free, chain, len, |free|, t);
      assert ClassOf(size, t) == c;
      PushOk(elts, free, chain, len, t, e);
      SameLinksSizes(elts, m, len);
      forall y | y in chain && y < |m| && IsFree(m, y)
        ensures Found(m, f, y, Extent(m, len, y))
      {
        RemovalFinds(m, f, chain, len, t, y);
      }
    } else {
      var y := StaleEntry(elts, free, chain, len, size, e);
    }
  }

  // The size that removal gets for a block.
  function Extent(elts: seq<Elt>, len: nat, e: nat): nat
    requires e < |elts|
  {
    if SizeOf(elts, len, e) < 0 then 0 else SizeOf(elts, len, e)
  }

  lemma EmptyListsLarge(elts: seq<Elt>, free: seq<seq<nat>>, len: nat, t: nat)
    ensures |free| == 0 ==> LargeOnly(elts, free, len, t)
  {
  }

  // A block of list 0 that removal then looks for in another list, in vain.
  lemma StaleEntry(elts: seq<Elt>, free: seq<seq<nat>>, chain: seq<nat>, len: nat, size: nat, e: nat) returns (y: nat)
    requires FreeOk(elts, free, chain, len, |free|) && |free| <= size && !LargeOnly(elts, free, len, size + 1)
    requires e in chain && e < |elts| && !IsFree(elts, e) && size > 0
    requires forall y :: y in chain ==> y < |elts| && SizeOf(elts, len, y) > 0
    ensures var m, f := PushElts(elts, free, size, e), PushFree(free, size, e);
            y in chain && y < |m| && IsFree(m, y) && !Found(m, f, y, Extent(m, len, y))
  {
    var m, f := PushElts(elts, free, size, e), PushFree(free, size, e);
    var k :| |free| > 0 && 0 <= k < |free[0]| && free[0][k] < |elts| && SizeOf(elts, len, free[0][k]) < size + 1;
    y := free[0][k];
    assert Backed(elts, free, chain, len, |free|, 0, k);
    assert SameLinks(elts, m);
    SameLinksSizes(elts, m, len);
    var d: nat := SizeOf(m, len, y);
    assert ListFor(f, d) == d && f[d] == if d == size then [e] else [];
  }
}

// Allocator for blocks of an underlying array that is not part of it.
module BlockHeaps {
  import opened Caps
  import opened Basics
  import opened BlockChain
  import opened BlockFree

  // Either the block handed out or one of the source's panics.
  datatype GetResult = Block(id: nat, offset: nat) | ZeroSize | Overflow

  // Every element is in the chain or recycled, not both.
  ghost predicate Partition(n: nat, chain: seq<nat>, removed: seq<nat>) {
    && Distinct(removed)
    && (forall r :: r in removed ==> r < n && r !in chain)
    && (forall e: nat :: e < n ==> e in chain || e in removed)
  }

  // Recycled elements are cleared.
  ghost predicate Cleared(elts: seq<Elt>, removed: seq<nat>) {
    forall r :: r in removed ==> r < |elts| && elts[r] == POISON
  }

  lemma ClearedFrame(elts: seq<Elt>, m: seq<Elt>, chain: seq<nat>, removed: seq<nat>, n: nat)
    requires Cleared(elts, removed) && OnlyIn(elts, m, chain, n) && n !in removed && forall r :: r in removed ==> r !in chain
    ensures Cleared(m, removed)
  {
  }

  ghost predicate Ends(chain: seq<nat>, head: nat, tail: nat) {
    chain != [] ==> head == chain[0] && tail == chain[|chain| - 1]
  }

  type Span = (nat, int)

  // Offsets and sizes of the blocks handed out.
  ghost function AllocMap(elts: seq<Elt>, chain: seq<nat>, len: nat): map<nat, Span> {
    map e | e in chain && e < |elts| && !IsFree(elts, e) :: (elts[e].offset, SizeOf(elts, len, e))
  }

  lemma {:induction false} ChainNoLonger(elts: seq<Elt>, chain: seq<nat>, len: nat, i: nat)
    requires ChainOk(elts, chain, len) && i <= |chain| && forall k :: 0 <= k < |chain| ==> chain[k] < |elts|
    ensures OffsetAt(elts, chain, len, i) >= i
  {
    if i > 0 {
      ChainNoLonger(elts, chain, len, i - 1);
      BlockEnd(elts, chain, len, i - 1);
      assert BlockAt(elts, chain, len, i - 1);
    }
  }

  // The element vector never outgrows the addresses it describes.
  lemma AllInChain(elts: seq<Elt>, chain: seq<nat>, len: nat, n: nat)
    requires ChainOk(elts, chain, len) && forall e: nat :: e < n ==> e in chain
    ensures n <= |chain| <= len
  {
    forall k | 0 <= k < |chain|
      ensures chain[k] < |elts|
    {
      assert BlockAt(elts, chain, len, k);
    }
    ChainNoLonger(elts, chain, len, |chain|);
    Covers(chain, n);
  }

  lemma {:induction false} Covers(s: seq<nat>, n: nat)
    requires Distinct(s) && forall e: nat :: e < n ==> e in s
    ensures n <= |s|
    decreases n
  {
    if n > 0 {
      assert n - 1 in s;
      var i :| 0 <= i < |s| && s[i] == n - 1;
      WithoutMembers(s, i);
      Covers(Without(s, i), n - 1);
    }
  }

  ghost predicate HeapOk(elts: seq<Elt>, free: seq<seq<nat>>, removed: seq<nat>, chain: seq<nat>, len: nat, maxSize: nat) {
    && ChainOk(elts, chain, len) && Partition(|elts|, chain, removed)
    && (forall i :: 0 <= i < |chain| ==> chain[i] < |elts|) && NoTwoFree(elts, chain)
    && FreeOk(elts, free, chain, len, maxSize + 1)
    && |elts| <= len < NIL && Cleared(elts, removed)
  }

  // ---- whole-heap consequences

  // Distinct blocks handed out do not overlap and end below len.
  lemma AllocatedDisjoint(elts: seq<Elt>, chain: seq<nat>, len: nat, d: nat, e: nat)
    requires ChainOk(elts, chain, len)
    requires d in AllocMap(elts, chain, len) && e in AllocMap(elts, chain, len) && d != e
    ensures var a, b := AllocMap(elts, chain, len)[d], AllocMap(elts, chain, len)[e];
            (a.0 + a.1 <= b.0 || b.0 + b.1 <= a.0) && a.0 + a.1 <= len
  {
    BlocksDisjoint(elts, chain, len, d, e);
  }

  // When nothing is handed out, one free block covers everything.
  lemma AllReturned(elts: seq<Elt>, free: seq<seq<nat>>, removed: seq<nat>, chain: seq<nat>, len: nat, maxSize: nat)
    requires HeapOk(elts, free, removed, chain, len, maxSize)
    requires AllocMap(elts, chain, len) == map[] && len > 0
    ensures |chain| == 1 && IsFree(elts, chain[0])
    ensures elts[chain[0]].offset == 0 && SizeOf(elts, len, chain[0]) == len
  {
    NothingOut(elts, chain, len);
    BlockEnd(elts, chain, len, 0);
  }

  lemma NothingOut(elts: seq<Elt>, chain: seq<nat>, len: nat)
    requires (forall i :: 0 <= i < |chain| ==> chain[i] < |elts|) && AllocMap(elts, chain, len) == map[]
    ensures forall i :: 0 <= i < |chain| ==> IsFree(elts, chain[i])
  {
    forall i | 0 <= i < |chain|
      ensures IsFree(elts, chain[i])
    {
      assert chain[i] in chain && chain[i] !in AllocMap(elts, chain, len);
    }
  }

  // ---- a fresh element

  // n is neither in the chain nor recycled; everything else is as before.
  ghost predicate Spare(elts: seq<Elt>, removed: seq<nat>, chain: seq<nat>, elts1: seq<Elt>, removed1: seq<nat>, n: nat) {
    && |elts| <= |elts1| && n < |elts1| && n !in chain && n !in removed1 && elts1[n] == POISON
    && Distinct(removed1) && (forall r :: r in removed1 ==> r < |elts1| && r !in chain)
    && (forall e: nat :: e < |elts1| && e != n ==> e in chain || e in removed1)
    && (forall y: nat :: y < |elts| && y != n ==> elts1[y] == elts[y])
    && (|elts1| == |elts| || (|elts1| == |elts| + 1 && forall e: nat :: e < |elts| ==> e in chain))
    && Cleared(elts1, removed1)
  }

  lemma AllButLast(s: seq<nat>)
    requires Distinct(s) && s != []
    ensures var t := s[..|s| - 1];
            Distinct(t) && forall r :: r in t <==> r in s && r != s[|s| - 1]
  {
    var t := s[..|s| - 1];
    assert s == t + [s[|s| - 1]];
  }

  lemma SpareByPop(elts: seq<Elt>, removed: seq<nat>, chain: seq<nat>)
    requires Partition(|elts|, chain, removed) && removed != [] && Cleared(elts, removed)
    ensures var l := |removed| - 1;
            removed[l] < |elts| && Spare(elts, removed, chain, elts[removed[l] := POISON], removed[..l], removed[l])
  {
    AllButLast(removed);
    assert removed[|removed| - 1] in removed;
  }

  lemma SpareByPush(elts: seq<Elt>, chain: seq<nat>)
    requires Partition(|elts|, chain, []) && forall k :: 0 <= k < |chain| ==> chain[k] < |elts|
    ensures Spare(elts, [], chain, elts + [POISON], [], |elts|)
  {
    assert forall y :: y in chain ==> y < |elts|;
  }

  lemma SpareApart(elts: seq<Elt>, removed: seq<nat>, chain: seq<nat>, elts1: seq<Elt>, removed1: seq<nat>, n: nat)
    requires Spare(elts, removed, chain, elts1, removed1, n)
    ensures Cleared(elts1, removed1) && n !in removed1 && forall r :: r in removed1 ==> r !in chain
  {
  }

  // The spare element may be put to use wherever the chain grows by it.
  lemma SpareUsed(elts: seq<Elt>, removed: seq<nat>, chain: seq<nat>, elts1: seq<Elt>, removed1: seq<nat>, n: nat,
                  m: seq<Elt>, chain': seq<nat>, len: nat, len': nat)
    requires ChainOk(elts, chain, len) && |elts| <= len <= len' && Spare(elts, removed, chain, elts1, removed1, n)
    requires |m| == |elts1| && ChainOk(m, chain', len') && forall y :: y in chain' <==> y in chain || y == n
    ensures Partition(|m|, chain', removed1) && |m| <= len'
  {
    if |elts1| == |elts| + 1 {
      forall e: nat | e < |m|
        ensures e in chain'
      {
        assert e < |elts| || e == n;
      }
      AllInChain(m, chain', len', |m|);
    }
  }

  // ---- e, allocated between allocated neighbours, becomes free

  ghost predicate NeighboursTaken(elts: seq<Elt>, chain: seq<nat>, i: nat)
    requires i < |chain| && forall k :: 0 <= k < |chain| ==> chain[k] < |elts|
  {
    && (i > 0 ==> !IsFree(elts, chain[i - 1]))
    && (i + 1 < |chain| ==> !IsFree(elts, chain[i + 1]))
  }

  lemma FreeStep(elts: seq<Elt>, free: seq<seq<nat>>, removed: seq<nat>, chain: seq<nat>, len: nat, maxSize: nat, i: nat)
    requires HeapOk(elts, free, removed, chain, len, maxSize) && i < |chain|
    requires !IsFree(elts, chain[i]) && NeighboursTaken(elts, chain, i)
    ensures SizeOf(elts, len, chain[i]) > 0
    ensures var e := chain[i];
            var c := ClassOf(SizeOf(elts, len, e), maxSize + 1);
            var m, f := PushElts(elts, free, c, e), PushFree(free, c, e);
            && HeapOk(m, f, removed, chain, len, maxSize)
            && AllocMap(m, chain, len) == AllocMap(elts, chain, len) - {e}
            && SameLinks(elts, m)
  {
    hide FreeOk, Partition, ChainOk, NoTwoFree, NeighboursTaken, Cleared, SizeOf, PushElts, PushFree, SameLinks, AllocMap;
    var e := chain[i];
    var j := PlaceOf(elts, chain, len, e);
    SizesPositive(elts, chain, len);
    ChainDistinct(elts, chain, len);
    var c := ClassOf(SizeOf(elts, len, e), maxSize + 1);
    var m := PushElts(elts, free, c, e);
    PushOk(elts, free, chain, len, maxSize + 1, e);
    PushedFields(elts, free, c, e);
    ChainFrame(elts, m, chain, len);
    OnlyMark(elts, m, chain, i);
    PushCleared(elts, m, chain, removed, e);
    OutAfterFree(elts, m, chain, len, e);
  }

  lemma PushedFields(elts: seq<Elt>, free: seq<seq<nat>>, c: nat, e: nat)
    requires e < |elts|
    ensures var m := PushElts(elts, free, c, e);
            |m| == |elts| && (forall y: nat :: y < |elts| && y != e ==> m[y] == elts[y])
            && forall y: nat :: y < |elts| ==> m[y].offset == elts[y].offset && m[y].next == elts[y].next && m[y].prev == elts[y].prev
  {
  }

  lemma PushCleared(elts: seq<Elt>, m: seq<Elt>, chain: seq<nat>, removed: seq<nat>, e: nat)
    requires Partition(|elts|, chain, removed) && Cleared(elts, removed) && e in chain && |m| == |elts|
    requires forall y: nat :: y < |elts| && y != e ==> m[y] == elts[y]
    ensures Cleared(m, removed)
  {
    RemovedApart(|elts|, chain, removed);
  }

  lemma OutAfterFree(elts: seq<Elt>, m: seq<Elt>, chain: seq<nat>, len: nat, e: nat)
    requires |m| == |elts| && e in chain && e < |elts| && IsFree(m, e)
    requires forall y: nat :: y < |elts| && y != e ==> m[y] == elts[y]
    requires forall y :: y in chain ==> y < |elts| && SizeOf(m, len, y) == SizeOf(elts, len, y)
    ensures AllocMap(m, chain, len) == AllocMap(elts, chain, len) - {e}
  {
  }

  lemma RemovedApart(n: nat, chain: seq<nat>, removed: seq<nat>)
    requires Partition(n, chain, removed)
    ensures forall y :: y in chain ==> y !in removed
    ensures forall r :: r in removed ==> r !in chain
  {
  }

  // Marking one block with taken neighbours free leaves no two free neighbours.
  lemma OnlyMark(elts: seq<Elt>, m: seq<Elt>, chain: seq<nat>, i: nat)
    requires (forall k :: 0 <= k < |chain| ==> chain[k] < |elts|) && |m| == |elts| && Distinct(chain)
    requires i < |chain| && NoTwoFree(elts, chain) && NeighboursTaken(elts, chain, i)
    requires forall y: nat :: y < |elts| && y != chain[i] ==> m[y].free == elts[y].free
    ensures NoTwoFree(m, chain)
  {
    forall a, b | 0 <= a < |chain| && b == a + 1 && b < |chain|
      ensures !IsFree(m, chain[a]) || !IsFree(m, chain[b])
    {
      assert !IsFree(elts, chain[a]) || !IsFree(elts, chain[b]);
    }
  }

  // ---- a listed free block is handed out whole

  lemma TakeStep(elts: seq<Elt>, free: seq<seq<nat>>, removed: seq<nat>, chain: seq<nat>, len: nat, maxSize: nat, c: nat, k: nat)
    requires HeapOk(elts, free, removed, chain, len, maxSize) && c < |free| && k < |free[c]|
    ensures free[c][k] < |elts| && free[c][|free[c]| - 1] < |elts| && free[c][k] in chain && IsFree(elts, free[c][k])
    ensures SizeOf(elts, len, free[c][k]) > 0 && ClassOf(SizeOf(elts, len, free[c][k]), maxSize + 1) == c
    ensures var e := free[c][k];
            var m, f := UnlistElts(elts, free, c, k), UnlistFree(free, c, k);
            && HeapOk(m, f, removed, chain, len, maxSize)
            && AllocMap(m, chain, len) == AllocMap(elts, chain, len)[e := (elts[e].offset, SizeOf(elts, len, e))]
            && SameLinks(elts, m) && !IsFree(m, e)
            && (forall y: nat :: y < |elts| && y != e ==> (IsFree(m, y) <==> IsFree(elts, y)))
            && e !in AllocMap(elts, chain, len)
  {
    hide AllListed, Partition, Cleared, UnlistElts, ChainOk, AllocMap;
    var e := free[c][k];
    assert Backed(elts, free, chain, len, maxSize + 1, c, k);
    UnlistFrame(elts, free, chain, len, maxSize + 1, c, k);
    UnlistOk(elts, free, chain, len, maxSize + 1, c, k);
    ChainFrame(elts, UnlistElts(elts, free, c, k), chain, len);
    SizesPositive(elts, chain, len);
    assert Backed(elts, free, chain, len, maxSize + 1, c, |free[c]| - 1);
    UnlistCleared(elts, free, chain, removed, c, k);
    OutAfterTake(elts, UnlistElts(elts, free, c, k), chain, len, e);
  }

  lemma UnlistCleared(elts: seq<Elt>, free: seq<seq<nat>>, chain: seq<nat>, removed: seq<nat>, c: nat, k: nat)
    requires Partition(|elts|, chain, removed) && Cleared(elts, removed) && c < |free| && k < |free[c]|
    requires free[c][k] < |elts| && free[c][|free[c]| - 1] < |elts|
    requires free[c][k] in chain && free[c][|free[c]| - 1] in chain
    ensures Cleared(UnlistElts(elts, free, c, k), removed)
  {
    RemovedApart(|elts|, chain, removed);
    ClearedFrame(elts, UnlistElts(elts, free, c, k), chain, removed, free[c][k]);
  }

  lemma OutAfterTake(elts: seq<Elt>, m: seq<Elt>, chain: seq<nat>, len: nat, e: nat)
    requires SameLinks(elts, m) && e in chain && e < |elts| && IsFree(elts, e) && !IsFree(m, e)
    requires forall y: nat :: y < |elts| && y != e ==> (IsFree(m, y) <==> IsFree(elts, y))
    requires forall y :: y in chain ==> y < |elts| && SizeOf(m, len, y) == SizeOf(elts, len, y)
    ensures AllocMap(m, chain, len) == AllocMap(elts, chain, len)[e := (elts[e].offset, SizeOf(elts, len, e))]
    ensures e !in AllocMap(elts, chain, len)
  {
  }

  // ---- what a step does to the map of blocks handed out

  // y is handed out, with the same span, before exactly if it is after.
  ghost predicate SameOut(elts: seq<Elt>, len: nat, m: seq<Elt>, len': nat, y: nat) {
    && y < |elts| && y < |m| && (IsFree(m, y) <==> IsFree(elts, y))
    && m[y].offset == elts[y].offset && SizeOf(m, len', y) == SizeOf(elts, len, y)
  }

  lemma OutAfterSplit(elts: seq<Elt>, chain: seq<nat>, len: nat, m: seq<Elt>, chain': seq<nat>, e: nat, n: nat, se: Span, sn: Span)
    requires e in chain && e < |elts| && !IsFree(elts, e) && n !in chain
    requires forall y :: y in chain' <==> y in chain || y == n
    requires e < |m| && n < |m| && !IsFree(m, e) && !IsFree(m, n)
    requires se == (m[e].offset, SizeOf(m, len, e)) && sn == (m[n].offset, SizeOf(m, len, n))
    requires forall y :: y in chain && y != e ==> SameOut(elts, len, m, len, y)
    ensures AllocMap(m, chain', len) == AllocMap(elts, chain, len)[e := se][n := sn]
  {
  }

  lemma OutAfterMerge(elts: seq<Elt>, chain: seq<nat>, len: nat, m: seq<Elt>, chain': seq<nat>, e: nat, x: nat, se: Span)
    requires e in chain && x in chain && e != x && e < |elts| && x < |elts| && !IsFree(elts, e) && IsFree(elts, x)
    requires forall y :: y in chain' <==> y in chain && y != x
    requires e < |m| && !IsFree(m, e) && se == (m[e].offset, SizeOf(m, len, e))
    requires forall y :: y in chain && y != e && y != x ==> SameOut(elts, len, m, len, y)
    ensures AllocMap(m, chain', len) == AllocMap(elts, chain, len)[e := se]
  {
  }

  lemma OutAfterAppend(elts: seq<Elt>, chain: seq<nat>, len: nat, m: seq<Elt>, len': nat, n: nat, sn: Span)
    requires n !in chain && n < |m| && !IsFree(m, n) && sn == (m[n].offset, SizeOf(m, len', n))
    requires forall y :: y in chain ==> SameOut(elts, len, m, len', y)
    ensures AllocMap(m, chain + [n], len') == AllocMap(elts, chain, len)[n := sn]
  {
  }

  // ---- an allocated block is split; the spare element gets one part

  lemma ChainMember(chain: seq<nat>, i: nat, n: nat, chain': seq<nat>)
    requires i < |chain| && (chain' == InsertAfter(chain, i, n) || chain' == InsertedBefore(chain, i, n))
    ensures forall y :: y in chain' <==> y in chain || y == n
  {
    assert chain == chain[..i] + chain[i..] && chain == chain[..i + 1] + chain[i + 1..];
  }

  // What both ways of splitting share.
  lemma SplitCommon(elts: seq<Elt>, free: seq<seq<nat>>, removed: seq<nat>, chain: seq<nat>, len: nat, maxSize: nat,
                    elts1: seq<Elt>, removed1: seq<nat>, n: nat, i: nat, m: seq<Elt>, chain': seq<nat>)
    requires HeapOk(elts, free, removed, chain, len, maxSize) && i < |chain| && !IsFree(elts, chain[i])
    requires Spare(elts, removed, chain, elts1, removed1, n)
    requires ChainOk(m, chain', len) && (chain' == InsertAfter(chain, i, n) || chain' == InsertedBefore(chain, i, n))
    requires |m| == |elts1| && (forall y: nat :: y < |elts1| ==> m[y].free == elts1[y].free)
    requires forall y :: y in chain && y != chain[i] ==> y < |elts| && SizeOf(m, len, y) == SizeOf(elts, len, y)
    requires OnlyIn(elts1, m, chain, n)
    ensures HeapOk(m, free, removed1, chain', len, maxSize)
  {
    ClearedFrame(elts1, m, chain, removed1, n);
    hide AllListed, AllBacked, ChainOk, Partition;
    ChainMember(chain, i, n, chain');
    InRange(m, chain', len);
    SpareUsed(elts, removed, chain, elts1, removed1, n, m, chain', len, len);
    FreeMoved(elts, chain, len, m, chain', len, free, maxSize + 1);
    SplitNoTwoFree(elts, m, chain, chain', n, i);
  }

  lemma InRange(elts: seq<Elt>, chain: seq<nat>, len: nat)
    requires ChainOk(elts, chain, len)
    ensures forall k :: 0 <= k < |chain| ==> chain[k] < |elts|
  {
    forall k | 0 <= k < |chain|
      ensures chain[k] < |elts|
    {
      assert BlockAt(elts, chain, len, k);
    }
  }

  lemma SplitNoTwoFree(elts: seq<Elt>, m: seq<Elt>, chain: seq<nat>, chain': seq<nat>, n: nat, i: nat)
    requires (forall k :: 0 <= k < |chain| ==> chain[k] < |elts|) && (forall k :: 0 <= k < |chain'| ==> chain'[k] < |m|)
    requires NoTwoFree(elts, chain) && i < |chain| && !IsFree(elts, chain[i])
    requires chain' == InsertAfter(chain, i, n) || chain' == InsertedBefore(chain, i, n)
    requires n < |m| && !IsFree(m, n) && forall y :: y in chain && y < |elts| && y < |m| ==> (IsFree(m, y) <==> IsFree(elts, y))
    ensures NoTwoFree(m, chain')
  {
    forall a, b | 0 <= a < |chain'| && b == a + 1 && b < |chain'|
      ensures !IsFree(m, chain'[a]) || !IsFree(m, chain'[b])
    {
      if chain' == InsertAfter(chain, i, n) {
        assert chain'[a] == if a <= i then chain[a] else if a == i + 1 then n else chain[a - 1];
        assert chain'[b] == if b <= i then chain[b] else if b == i + 1 then n else chain[b - 1];
      } else {
        assert chain'[a] == if a < i then chain[a] else if a == i then n else chain[a - 1];
        assert chain'[b] == if b < i then chain[b] else if b == i then n else chain[b - 1];
      }
    }
  }

  lemma SplitHighStep(elts: seq<Elt>, free: seq<seq<nat>>, removed: seq<nat>, chain: seq<nat>, len: nat, maxSize: nat,
                      elts1: seq<Elt>, removed1: seq<nat>, n: nat, i: nat, at: nat)
    requires HeapOk(elts, free, removed, chain, len, maxSize) && i < |chain| && !IsFree(elts, chain[i])
    requires Spare(elts, removed, chain, elts1, removed1, n)
    requires elts[chain[i]].offset < at < elts[chain[i]].offset + SizeOf(elts, len, chain[i])
    ensures chain[i] < |elts1|
    ensures var e := chain[i];
            var m := SplitAfter(elts1, e, n, at);
            && HeapOk(m, free, removed1, InsertAfter(chain, i, n), len, maxSize)
            && AllocMap(m, InsertAfter(chain, i, n), len) ==
               AllocMap(elts, chain, len)[e := (elts[e].offset, at - elts[e].offset)]
                                         [n := (at, elts[e].offset + SizeOf(elts, len, e) - at)]
            && !IsFree(m, e) && !IsFree(m, n)
            && (forall y: nat :: y < |elts| && y in chain ==> (IsFree(m, y) <==> IsFree(elts, y)))
  {
    hide FreeOk, Spare, Partition, AllocMap, ChainOk, NoTwoFree, SplitAfter, SplitBefore, Appended;
    SpareFrame(elts, removed, chain, elts1, removed1, n, len);
    assert chain[i] in chain;
    SplitAfterOk(elts1, chain, len, i, n, at);
    SplitsOnly(elts1, chain, len, i, n, at);
    SplitAfterSpans(elts1, chain, len, i, n, at);
    var m := SplitAfter(elts1, chain[i], n, at);
    SplitCommon(elts, free, removed, chain, len, maxSize, elts1, removed1, n, i, m, InsertAfter(chain, i, n));
    ChainMember(chain, i, n, InsertAfter(chain, i, n));
    OutAfterSplit(elts, chain, len, m, InsertAfter(chain, i, n), chain[i], n,
                  (elts[chain[i]].offset, at - elts[chain[i]].offset), (at, elts[chain[i]].offset + SizeOf(elts, len, chain[i]) - at));
  }

  lemma SplitLowStep(elts: seq<Elt>, free: seq<seq<nat>>, removed: seq<nat>, chain: seq<nat>, len: nat, maxSize: nat,
                     elts1: seq<Elt>, removed1: seq<nat>, n: nat, i: nat, at: nat)
    requires HeapOk(elts, free, removed, chain, len, maxSize) && i < |chain| && !IsFree(elts, chain[i])
    requires Spare(elts, removed, chain, elts1, removed1, n)
    requires elts[chain[i]].offset < at < elts[chain[i]].offset + SizeOf(elts, len, chain[i])
    ensures chain[i] < |elts1|
    ensures var e := chain[i];
            var m := SplitBefore(elts1, e, n, at);
            && HeapOk(m, free, removed1, InsertedBefore(chain, i, n), len, maxSize)
            && AllocMap(m, InsertedBefore(chain, i, n), len) ==
               AllocMap(elts, chain, len)[e := (at, elts[e].offset + SizeOf(elts, len, e) - at)]
                                         [n := (elts[e].offset, at - elts[e].offset)]
            && !IsFree(m, e) && !IsFree(m, n)
  {
    hide FreeOk, Spare, Partition, AllocMap, ChainOk, NoTwoFree, SplitAfter, SplitBefore, Appended;
    SpareFrame(elts, removed, chain, elts1, removed1, n, len);
    assert chain[i] in chain;
    SplitBeforeOk(elts1, chain, len, i, n, at);
    SplitsOnly(elts1, chain, len, i, n, at);
    SplitBeforeSpans(elts1, chain, len, i, n, at);
    var m := SplitBefore(elts1, chain[i], n, at);
    SplitCommon(elts, free, removed, chain, len, maxSize, elts1, removed1, n, i, m, InsertedBefore(chain, i, n));
    ChainMember(chain, i, n, InsertedBefore(chain, i, n));
    OutAfterSplit(elts, chain, len, m, InsertedBefore(chain, i, n), chain[i], n,
                  (at, elts[chain[i]].offset + SizeOf(elts, len, chain[i]) - at), (elts[chain[i]].offset, at - elts[chain[i]].offset));
  }

  // ---- the chain grows at its end

  lemma AppendStep(elts: seq<Elt>, free: seq<seq<nat>>, removed: seq<nat>, chain: seq<nat>, len: nat, maxSize: nat,
                   elts1: seq<Elt>, removed1: seq<nat>, n: nat, size: nat)
    requires HeapOk(elts, free, removed, chain, len, maxSize) && Spare(elts, removed, chain, elts1, removed1, n)
    requires size > 0 && len + size < NIL
    ensures var m := Appended(elts1, chain, len, n);
            && HeapOk(m, free, removed1, chain + [n], len + size, maxSize)
            && AllocMap(m, chain + [n], len + size) == AllocMap(elts, chain, len)[n := (len, size)]
  {
    hide HeapOk, Spare, AllocMap, ChainOk, Appended;
    AppendHeap(elts, free, removed, chain, len, maxSize, elts1, removed1, n, size);
    AppendSpans(elts1, chain, len, n, size);
    OutAfterAppend(elts, chain, len, Appended(elts1, chain, len, n), len + size, n, (len, size));
  }

  lemma AppendHeap(elts: seq<Elt>, free: seq<seq<nat>>, removed: seq<nat>, chain: seq<nat>, len: nat, maxSize: nat,
                   elts1: seq<Elt>, removed1: seq<nat>, n: nat, size: nat)
    requires HeapOk(elts, free, removed, chain, len, maxSize) && Spare(elts, removed, chain, elts1, removed1, n)
    requires size > 0 && len + size < NIL
    ensures HeapOk(Appended(elts1, chain, len, n), free, removed1, chain + [n], len + size, maxSize)
    ensures |elts1| <= NIL && ChainOk(elts1, chain, len) && |elts| <= |elts1| && n < |elts1| && n !in chain && !IsFree(elts1, n)
    ensures forall y :: y in chain ==> y < |elts| && elts1[y] == elts[y] && SizeOf(elts1, len, y) == SizeOf(elts, len, y)
  {
    hide FreeOk, Spare, Partition, AllocMap, ChainOk, NoTwoFree, SplitAfter, SplitBefore, Appended, Cleared, SizeOf;
    SpareFrame(elts, removed, chain, elts1, removed1, n, len);
    AppendOk(elts1, chain, len, n, size);
    AppendSpans(elts1, chain, len, n, size);
    var m := Appended(elts1, chain, len, n);
    InRange(m, chain + [n], len + size);
    SpareUsed(elts, removed, chain, elts1, removed1, n, m, chain + [n], len, len + size);
    AppendFree(elts, free, chain, len, m, n, len + size, maxSize + 1);
    AppendNoTwoFree(elts, m, chain, n);
    AppendCleared(elts, removed, chain, len, elts1, removed1, n);
  }

  lemma AppendCleared(elts: seq<Elt>, removed: seq<nat>, chain: seq<nat>, len: nat, elts1: seq<Elt>, removed1: seq<nat>, n: nat)
    requires Spare(elts, removed, chain, elts1, removed1, n) && |elts1| <= NIL
    ensures Cleared(Appended(elts1, chain, len, n), removed1)
  {
    AppendsOnly(elts1, chain, len, n);
    SpareApart(elts, removed, chain, elts1, removed1, n);
    ClearedFrame(elts1, Appended(elts1, chain, len, n), chain, removed1, n);
  }

  lemma AppendFree(elts: seq<Elt>, free: seq<seq<nat>>, chain: seq<nat>, len: nat, m: seq<Elt>, n: nat, len': nat, threshold: nat)
    requires FreeOk(elts, free, chain, len, threshold) && n < |m| && !IsFree(m, n)
    requires forall y :: y in chain ==> y < |elts| && y < |m| && m[y].free == elts[y].free && SizeOf(m, len', y) == SizeOf(elts, len, y)
    ensures FreeOk(m, free, chain + [n], len', threshold)
  {
    FreeMoved(elts, chain, len, m, chain + [n], len', free, threshold);
  }

  lemma AppendNoTwoFree(elts: seq<Elt>, m: seq<Elt>, chain: seq<nat>, n: nat)
    requires (forall k :: 0 <= k < |chain| ==> chain[k] < |elts|) && (forall k :: 0 <= k < |chain + [n]| ==> (chain + [n])[k] < |m|)
    requires NoTwoFree(elts, chain) && n < |m| && !IsFree(m, n)
    requires forall y :: y in chain && y < |elts| && y < |m| ==> (IsFree(m, y) <==> IsFree(elts, y))
    ensures NoTwoFree(m, chain + [n])
  {
    var c := chain + [n];
    forall a, b | 0 <= a < |c| && b == a + 1 && b < |c|
      ensures !IsFree(m, c[a]) || !IsFree(m, c[b])
    {
      if b < |chain| {
        assert c[a] == chain[a] && c[b] == chain[b];
      }
    }
  }

  // The chain as seen with the spare element present.
  lemma SpareFrame(elts: seq<Elt>, removed: seq<nat>, chain: seq<nat>, elts1: seq<Elt>, removed1: seq<nat>, n: nat, len: nat)
    requires ChainOk(elts, chain, len) && |elts| <= len < NIL && Spare(elts, removed, chain, elts1, removed1, n)
    ensures |elts1| <= NIL && ChainOk(elts1, chain, len) && |elts| <= |elts1| && n < |elts1| && n !in chain && !IsFree(elts1, n)
    ensures forall y :: y in chain ==> y < |elts| && elts1[y] == elts[y] && SizeOf(elts1, len, y) == SizeOf(elts, len, y)
  {
    ChainFrame(elts, elts1, chain, len);
    forall y | y in chain
      ensures y < |elts| && elts1[y] == elts[y]
    {
      var i :| 0 <= i < |chain| && chain[i] == y;
      assert BlockAt(elts, chain, len, i);
    }
  }

  // ---- an allocated block takes in a free neighbour

  lemma MergePrevStep(elts: seq<Elt>, free: seq<seq<nat>>, removed: seq<nat>, chain: seq<nat>, len: nat, maxSize: nat, i: nat, c: nat, k: nat)
    requires HeapOk(elts, free, removed, chain, len, maxSize) && 0 < i < |chain|
    requires !IsFree(elts, chain[i]) && c < |free| && k < |free[c]| && free[c][k] == chain[i - 1]
    ensures elts[chain[i]].prev == chain[i - 1] && free[c][|free[c]| - 1] < |elts|
    ensures var e, p := chain[i], chain[i - 1];
            |elts| == |UnlistElts(MergePrev(elts, e), free, c, k)| &&
            var m := UnlistElts(MergePrev(elts, e), free, c, k)[p := POISON];
            && HeapOk(m, UnlistFree(free, c, k), removed + [p], Without(chain, i - 1), len, maxSize)
            && AllocMap(m, Without(chain, i - 1), len) ==
               AllocMap(elts, chain, len)[e := (elts[p].offset, SizeOf(elts, len, p) + SizeOf(elts, len, e))]
            && !IsFree(m, e) && (i > 1 ==> chain[i - 2] < |elts| && !IsFree(m, chain[i - 2]))
  {
    hide FreeOk, Partition, AllocMap, ChainOk, NoTwoFree, UnlistElts, UnlistFree, MergePrev, SizeOf, Cleared, Without;
    var e, p := chain[i], chain[i - 1];
    OneFreeOnly(elts, chain, i - 1);
    TakeStep(elts, free, removed, chain, len, maxSize, c, k);
    var u, f := UnlistElts(elts, free, c, k), UnlistFree(free, c, k);
    MergePrevOk(elts, chain, len, i);
    MergePrevOk(u, chain, len, i);
    MergePrevSpans(u, chain, len, i);
    MergePrevOnly(u, chain, len, i);
    SameLinksSizes(elts, u, len);
    UnlistThenMergePrev(elts, free, c, k, e);
    MergeCommon(u, f, removed, chain, len, maxSize, MergePrev(u, e), i, i - 1);
    ChainDistinct(elts, chain, len);
    WithoutMembers(chain, i - 1);
    var w := MergePrev(u, e)[p := POISON];
    AfterPoison(u, MergePrev(u, e), chain, len, i - 1);
    OutAfterMerge(elts, chain, len, w, Without(chain, i - 1), e, p, (elts[p].offset, SizeOf(elts, len, p) + SizeOf(elts, len, e)));
  }

  // Neighbours of a free block are taken.
  lemma OneFreeOnly(elts: seq<Elt>, chain: seq<nat>, q: nat)
    requires (forall k :: 0 <= k < |chain| ==> chain[k] < |elts|) && NoTwoFree(elts, chain) && q < |chain|
    ensures IsFree(elts, chain[q]) ==> NeighboursTaken(elts, chain, q)
  {
    assert q > 0 ==> !IsFree(elts, chain[q - 1]) || !IsFree(elts, chain[q]);
    assert q + 1 < |chain| ==> !IsFree(elts, chain[q]) || !IsFree(elts, chain[q + 1]);
  }

  // Sizes of the chain without its q-th block are not read from that element.
  lemma AfterPoison(u: seq<Elt>, m: seq<Elt>, chain: seq<nat>, len: nat, q: nat)
    requires Distinct(chain) && q < |chain| && |m| == |u| && ChainOk(m, Without(chain, q), len)
    requires chain[q] < |m|
    ensures forall y :: y in chain && y != chain[q] ==>
              y < |m| && SizeOf(m[chain[q] := POISON], len, y) == SizeOf(m, len, y)
    ensures ChainOk(m[chain[q] := POISON], Without(chain, q), len)
  {
    WithoutMembers(chain, q);
    ChainFrame(m, m[chain[q] := POISON], Without(chain, q), len);
  }

  lemma UnlistThenMergePrev(elts: seq<Elt>, free: seq<seq<nat>>, c: nat, k: nat, e: nat)
    requires c < |free| && k < |free[c]| && free[c][k] < |elts| && free[c][|free[c]| - 1] < |elts|
    requires e < |elts| && elts[e].prev < |elts| && elts[e].prev == free[c][k]
    ensures UnlistElts(elts, free, c, k)[e].prev == elts[e].prev
    ensures UnlistElts(MergePrev(elts, e), free, c, k) == MergePrev(UnlistElts(elts, free, c, k), e)
  {
  }

  lemma UnlistThenMergeNext(elts: seq<Elt>, free: seq<seq<nat>>, c: nat, k: nat, e: nat)
    requires c < |free| && k < |free[c]| && free[c][k] < |elts| && free[c][|free[c]| - 1] < |elts|
    requires e < |elts| && elts[e].next < |elts| && elts[e].next == free[c][k]
    ensures UnlistElts(elts, free, c, k)[e].next == elts[e].next
    ensures UnlistElts(MergeNext(elts, e), free, c, k) == MergeNext(UnlistElts(elts, free, c, k), e)
  {
  }

  // u: the neighbour, at position q of the chain, has been taken off its list;
  // m: the i-th block has been stretched over it.
  lemma MergeCommon(u: seq<Elt>, f: seq<seq<nat>>, removed: seq<nat>, chain: seq<nat>, len: nat, maxSize: nat, m: seq<Elt>, i: nat, q: nat)
    requires HeapOk(u, f, removed, chain, len, maxSize) && i < |chain| && q < |chain| && (q + 1 == i || q == i + 1)
    requires !IsFree(u, chain[i]) && !IsFree(u, chain[q])
    requires |m| == |u| && ChainOk(m, Without(chain, q), len)
    requires (forall y: nat :: y < |u| ==> m[y].free == u[y].free)
    requires forall y: nat :: y < |u| && y != chain[i] ==> m[y].offset == u[y].offset
    requires forall y :: y in chain && y != chain[i] && y != chain[q] ==> y < |u| && SizeOf(m, len, y) == SizeOf(u, len, y)
    requires OnlyIn(u, m, chain, chain[i])
    ensures HeapOk(m[chain[q] := POISON], f, removed + [chain[q]], Without(chain, q), len, maxSize)
  {
    hide AllListed, AllBacked, ChainOk, NoTwoFree, Partition, Cleared, OnlyIn;
    MergeCleared(u, m, chain, removed, i, q);
    var x := chain[q];
    var c := Without(chain, q);
    var w := m[x := POISON];
    ChainDistinct(u, chain, len);
    WithoutMembers(chain, q);
    AfterPoison(u, m, chain, len, q);
    InRange(w, c, len);
    FreeMoved(u, chain, len, w, c, len, f, maxSize + 1);
    MergedNoTwoFree(u, w, chain, q, i);
    Recycled(|u|, chain, removed, q);
  }

  lemma MergeCleared(u: seq<Elt>, m: seq<Elt>, chain: seq<nat>, removed: seq<nat>, i: nat, q: nat)
    requires Partition(|u|, chain, removed) && Cleared(u, removed) && i < |chain| && q < |chain| && chain[q] < |m|
    requires OnlyIn(u, m, chain, chain[i])
    ensures Cleared(m[chain[q] := POISON], removed + [chain[q]])
  {
    RemovedApart(|u|, chain, removed);
    assert chain[i] in chain && chain[q] in chain;
    ClearedFrame(u, m, chain, removed, chain[i]);
  }

  lemma Recycled(n: nat, chain: seq<nat>, removed: seq<nat>, q: nat)
    requires Partition(n, chain, removed) && Distinct(chain) && q < |chain| && chain[q] < n
    ensures Partition(n, Without(chain, q), removed + [chain[q]])
  {
    assert chain[q] in chain && chain[q] !in removed;
    WithoutMembers(chain, q);
  }

  lemma MergedNoTwoFree(u: seq<Elt>, w: seq<Elt>, chain: seq<nat>, q: nat, i: nat)
    requires (forall k :: 0 <= k < |chain| ==> chain[k] < |u|) && |w| == |u| && Distinct(chain) && NoTwoFree(u, chain)
    requires i < |chain| && q < |chain| && (q + 1 == i || q == i + 1) && !IsFree(u, chain[i]) && !IsFree(u, chain[q])
    requires forall y: nat :: y < |u| && y != chain[q] ==> w[y].free == u[y].free
    requires forall k :: 0 <= k < |Without(chain, q)| ==> Without(chain, q)[k] < |w|
    ensures NoTwoFree(w, Without(chain, q))
  {
    var c := Without(chain, q);
    forall a, b | 0 <= a < |c| && b == a + 1 && b < |c|
      ensures !IsFree(w, c[a]) || !IsFree(w, c[b])
    {
      assert c[a] == if a < q then chain[a] else chain[a + 1];
      assert c[b] == if b < q then chain[b] else chain[b + 1];
    }
  }

  lemma MergeNextStep(elts: seq<Elt>, free: seq<seq<nat>>, removed: seq<nat>, chain: seq<nat>, len: nat, maxSize: nat, i: nat, c: nat, k: nat)
    requires HeapOk(elts, free, removed, chain, len, maxSize) && i + 1 < |chain|
    requires !IsFree(elts, chain[i]) && c < |free| && k < |free[c]| && free[c][k] == chain[i + 1]
    ensures elts[chain[i]].next == chain[i + 1] && free[c][|free[c]| - 1] < |elts|
    ensures var e, n := chain[i], chain[i + 1];
            |elts| == |UnlistElts(MergeNext(elts, e), free, c, k)| &&
            var m := UnlistElts(MergeNext(elts, e), free, c, k)[n := POISON];
            && HeapOk(m, UnlistFree(free, c, k), removed + [n], Without(chain, i + 1), len, maxSize)
            && AllocMap(m, Without(chain, i + 1), len) ==
               AllocMap(elts, chain, len)[e := (elts[e].offset, SizeOf(elts, len, e) + SizeOf(elts, len, n))]
            && !IsFree(m, e) && (i + 2 < |chain| ==> chain[i + 2] < |elts| && !IsFree(m, chain[i + 2]))
            && (i > 0 ==> (IsFree(m, chain[i - 1]) <==> IsFree(elts, chain[i - 1])))
  {
    hide FreeOk, Partition, AllocMap, ChainOk, NoTwoFree, UnlistElts, UnlistFree, MergeNext, SizeOf, Cleared, Without;
    var e, n := chain[i], chain[i + 1];
    OneFreeOnly(elts, chain, i + 1);
    TakeStep(elts, free, removed, chain, len, maxSize, c, k);
    var u, f := UnlistElts(elts, free, c, k), UnlistFree(free, c, k);
    MergeNextOk(elts, chain, len, i);
    MergeNextOk(u, chain, len, i);
    MergeNextSpans(u, chain, len, i);
    MergeNextOnly(u, chain, len, i);
    SameLinksSizes(elts, u, len);
    UnlistThenMergeNext(elts, free, c, k, e);
    MergeCommon(u, f, removed, chain, len, maxSize, MergeNext(u, e), i, i + 1);
    ChainDistinct(elts, chain, len);
    WithoutMembers(chain, i + 1);
    var w := MergeNext(u, e)[n := POISON];
    AfterPoison(u, MergeNext(u, e), chain, len, i + 1);
    OutAfterMerge(elts, chain, len, w, Without(chain, i + 1), e, n, (elts[e].offset, SizeOf(elts, len, e) + SizeOf(elts, len, n)));
  }

  // Growing requests can leave a free block in a list where it is not looked
  // for.  Ask for 1, 1 and 1, return the first two (the joined block of size 2
  // goes to list 0), ask for 3: the lists are as below, and still reliable.
  // Returning the block of size 3 extends the vector of lists to 4, and the
  // block of size 2 is then looked for, in vain, in list 2.
  lemma StaleBlockExample()
    ensures var elts := [Elt(3, NIL, NIL, 2), Elt(0, 0, 2, NIL), Elt(2, NIL, 0, 1)];
            var free: seq<seq<nat>> := [[1], []];
            var m, f := PushElts(elts, free, 3, 0), PushFree(free, 3, 0);
            && ChainOk(elts, [1, 2, 0], 6) && FreeOk(elts, free, [1, 2, 0], 6, |free|)
            && SizeOf(elts, 6, 0) == 3 && SizeOf(elts, 6, 1) == 2
            && Found(elts, free, 1, 2) && !Found(m, f, 1, 2)
  {
    var elts := [Elt(3, NIL, NIL, 2), Elt(0, 0, 2, NIL), Elt(2, NIL, 0, 1)];
    var free: seq<seq<nat>> := [[1], []];
    var chain: seq<nat> := [1, 2, 0];
    forall i | 0 <= i < |chain|
      ensures BlockAt(elts, chain, 6, i)
    {
      assert i == 0 || i == 1 || i == 2;
    }
    assert Backed(elts, free, chain, 6, 2, 0, 0);
    assert Listed(elts, free, 6, 2, 1);
    assert |PushFree(free, 3, 0)| == 4 && PushFree(free, 3, 0)[2] == [];
  }

  // Get(1), Get(1), Put(0), Put(1): element 0 was merged away and is recycled, and
  // nothing marks it as free.
  lemma RecycledExample()
    ensures var elts := [POISON, Elt(0, 0, NIL, NIL)];
            var free: seq<seq<nat>> := [[1], []];
            && HeapOk(elts, free, [0], [1], 2, 1) && Ends([1], 1, 1) && AllocMap(elts, [1], 2) == map[]
            && 0 !in [1] && !IsFree(elts, 0)
  {
    var elts := [POISON, Elt(0, 0, NIL, NIL)];
    var free: seq<seq<nat>> := [[1], []];
    assert BlockAt(elts, [1], 2, 0);
    assert Backed(elts, free, [1], 2, 2, 0, 0);
    assert Listed(elts, free, 2, 2, 1);
    assert [0][0] in [0] && [1][0] in [1];
  }

  // Cutting a block off right at its start, as an aligned request for nothing
  // does, leaves an empty block, which no chain may have.
  lemma EmptyBlock(elts: seq<Elt>, chain: seq<nat>, len: nat, i: nat, n: nat)
    requires ChainOk(elts, chain, len) && i < |chain| && chain[i] < |elts| && n < |elts| && n !in chain
    ensures var m := SplitAfter(elts, chain[i], n, elts[chain[i]].offset);
            SizeOf(m, len, chain[i]) == 0 && forall c: seq<nat> :: chain[i] in c ==> !ChainOk(m, c, len)
  {
    assert BlockAt(elts, chain, len, i) && chain[i] in chain;
    assert i + 1 < |chain| ==> chain[i + 1] in chain;
    var m := SplitAfter(elts, chain[i], n, elts[chain[i]].offset);
    forall c: seq<nat> | chain[i] in c
      ensures !ChainOk(m, c, len)
    {
      var k := MemberAt(c, chain[i]);
      assert !BlockAt(m, c, len, k);
    }
  }

  // ---- the allocator

  lemma EntriesBelow(elts: seq<Elt>, free: seq<seq<nat>>, chain: seq<nat>, len: nat, threshold: nat)
    requires FreeOk(elts, free, chain, len, threshold)
    ensures EntriesKnown(free, |elts|)
  {
    forall c, k | 0 <= c < |free| && 0 <= k < |free[c]|
      ensures free[c][k] < |elts|
    {
      assert Backed(elts, free, chain, len, threshold, c, k);
    }
  }

  ghost predicate EntriesKnown(free: seq<seq<nat>>, n: nat) {
    forall c, k :: 0 <= c < |free| && 0 <= k < |free[c]| ==> free[c][k] < n
  }

  // Where a free block is listed.
  lemma FreeBlockFound(elts: seq<Elt>, free: seq<seq<nat>>, removed: seq<nat>, chain: seq<nat>, len: nat, maxSize: nat, q: nat)
    requires HeapOk(elts, free, removed, chain, len, maxSize) && q < |chain| && chain[q] < |elts| && IsFree(elts, chain[q])
    ensures SizeOf(elts, len, chain[q]) > 0 && Found(elts, free, chain[q], SizeOf(elts, len, chain[q]))
    ensures EntriesKnown(free, |elts|) && |free| > 0
  {
    var e := chain[q];
    assert e in chain && BlockAt(elts, chain, len, q);
    RemovalFinds(elts, free, chain, len, maxSize + 1, e);
    EntriesBelow(elts, free, chain, len, maxSize + 1);
  }

  const INDICES: nat := 0x1_0000_0000

  lemma SizeBound(elts: seq<Elt>, free: seq<seq<nat>>, removed: seq<nat>, chain: seq<nat>, len: nat, maxSize: nat, i: nat)
    requires HeapOk(elts, free, removed, chain, len, maxSize) && i < |chain| && chain[i] < |elts|
    ensures 0 < SizeOf(elts, len, chain[i]) <= len < NIL
  {
    BlockEnd(elts, chain, len, i);
    assert BlockAt(elts, chain, len, i);
    OffsetsIncrease(elts, chain, len, i, |chain|);
  }

  // With a recycled element among its entries, the heap is broken for good: no
  // chain fits.
  lemma RecycledListed(elts: seq<Elt>, free: seq<seq<nat>>, removed: seq<nat>, e: nat, c: nat)
    requires e in removed
    ensures forall chain: seq<nat>, len: nat, maxSize: nat :: !HeapOk(elts, PushFree(free, c, e), removed, chain, len, maxSize)
  {
    forall chain: seq<nat>, len: nat, maxSize: nat
      ensures !HeapOk(elts, PushFree(free, c, e), removed, chain, len, maxSize)
    {
      var f := PushFree(free, c, e);
      assert f[c][|f[c]| - 1] == e;
      assert e !in chain ==> !Backed(elts, f, chain, len, maxSize + 1, c, |f[c]| - 1);
    }
  }

  lemma RecycledOut(elts: seq<Elt>, free: seq<seq<nat>>, chain: seq<nat>, len: nat, e: nat, c: nat)
    requires e < |elts| && e !in chain
    ensures AllocMap(PushElts(elts, free, c, e), chain, len) == AllocMap(elts, chain, len)
  {
    var m := PushElts(elts, free, c, e);
    assert SameLinks(elts, m);
    SameLinksSizes(elts, m, len);
  }

  // The links of a block and what they say about its neighbours.
  lemma Neighbours(elts: seq<Elt>, free: seq<seq<nat>>, removed: seq<nat>, chain: seq<nat>, len: nat, maxSize: nat, i: nat)
    requires HeapOk(elts, free, removed, chain, len, maxSize) && i < |chain|
    ensures chain[i] < |elts| < NIL && SizeOf(elts, len, chain[i]) > 0 && Distinct(chain)
    ensures elts[chain[i]].prev == PrevIn(chain, i) && elts[chain[i]].next == NextIn(chain, i)
    ensures i > 0 ==> chain[i - 1] < |elts| && elts[chain[i - 1]].prev == PrevIn(chain, i - 1)
    ensures i > 0 ==> elts[chain[i]].offset - elts[chain[i - 1]].offset == SizeOf(elts, len, chain[i - 1])
    ensures i > 1 ==> chain[i - 2] < |elts|
    ensures i + 1 < |chain| ==> chain[i + 1] < |elts| && elts[chain[i + 1]].next == NextIn(chain, i + 1)
    ensures i + 2 < |chain| ==> chain[i + 2] < |elts|
  {
    assert BlockAt(elts, chain, len, i);
    assert i > 0 ==> BlockAt(elts, chain, len, i - 1);
    assert i > 1 ==> BlockAt(elts, chain, len, i - 2);
    assert i + 1 < |chain| ==> BlockAt(elts, chain, len, i + 1);
    assert i + 2 < |chain| ==> BlockAt(elts, chain, len, i + 2);
  }

  lemma FoundStill(elts: seq<Elt>, m: seq<Elt>, free: seq<seq<nat>>, e: nat, size: nat)
    requires e < |elts| && |m| == |elts| && m[e].free == elts[e].free && Found(elts, free, e, size)
    ensures Found(m, free, e, size)
  {
  }

  lemma FoundPlace(elts: seq<Elt>, free: seq<seq<nat>>, e: nat, size: nat)
    requires e < |elts| && Found(elts, free, e, size)
    ensures var c := ListFor(free, size); c < |free| && elts[e].free < |free[c]| && free[c][elts[e].free] == e
  {
  }

  // ---- handing out a block of an exact size

  lemma ExactSize(elts: seq<Elt>, free: seq<seq<nat>>, removed: seq<nat>, chain: seq<nat>, len: nat, maxSize: nat, size: nat)
    requires HeapOk(elts, free, removed, chain, len, maxSize) && 0 < size < |free| && free[size] != []
    ensures var k := |free[size]| - 1;
            var e := free[size][k];
            && e < |elts| && SizeOf(elts, len, e) == size && e in chain
            && UnlistElts(elts, free, size, k) == elts[e := elts[e].(free := NIL)]
            && UnlistFree(free, size, k) == free[size := free[size][..k]]
  {
    var k := |free[size]| - 1;
    assert Backed(elts, free, chain, len, maxSize + 1, size, k);
    assert free[size][k := free[size][k]][..k] == free[size][..k];
  }

  // What the search of list 0 sees.
  lemma LargeEntry(elts: seq<Elt>, free: seq<seq<nat>>, removed: seq<nat>, chain: seq<nat>, len: nat, maxSize: nat, fi: nat)
    requires HeapOk(elts, free, removed, chain, len, maxSize) && |free| > 0 && fi < |free[0]|
    ensures var e := free[0][fi]; e in chain && e < |elts| && IsFree(elts, e)
    ensures free[0][|free[0]| - 1] < |elts|
  {
    assert Backed(elts, free, chain, len, maxSize + 1, 0, fi);
    assert Backed(elts, free, chain, len, maxSize + 1, 0, |free[0]| - 1);
  }

  lemma ForgetUpper(m: map<nat, Span>, e: nat, n: nat, b: Span, c: Span)
    requires n !in m && n != e
    ensures m[e := b][n := c] - {n} == m[e := b]
  {
  }

  lemma OutSize(elts: seq<Elt>, chain: seq<nat>, len: nat, e: nat)
    requires e in chain && e < |elts| && !IsFree(elts, e)
    ensures e in AllocMap(elts, chain, len) && AllocMap(elts, chain, len)[e] == (elts[e].offset, SizeOf(elts, len, e))
  {
  }

  lemma NotOut(elts: seq<Elt>, chain: seq<nat>, len: nat, n: nat)
    requires n !in chain
    ensures n !in AllocMap(elts, chain, len)
  {
  }

  // Some free block can serve a request of this size.
  ghost predicate Fits(elts: seq<Elt>, free: seq<seq<nat>>, len: nat, size: nat) {
    || (size < |free| && free[size] != [])
    || (|free| > 0 && exists k :: 0 <= k < |free[0]| && free[0][k] < |elts| && SizeOf(elts, len, free[0][k]) >= size)
  }

  // Place of the first block of s with room for size; its end, if there is none.
  ghost function FirstRoom(elts: seq<Elt>, len: nat, s: seq<nat>, size: nat): (k: nat)
    ensures k <= |s| && (k < |s| ==> s[k] < |elts| && SizeOf(elts, len, s[k]) >= size)
    ensures forall j :: 0 <= j < k && s[j] < |elts| ==> SizeOf(elts, len, s[j]) < size
  {
    if s == [] || (s[0] < |elts| && SizeOf(elts, len, s[0]) >= size) then 0 else 1 + FirstRoom(elts, len, s[1..], size)
  }

  // The block that serves a request which fits: of those listed for its size the one
  // freed last, else the first of list 0 with room.
  ghost function Pick(elts: seq<Elt>, free: seq<seq<nat>>, len: nat, size: nat): nat
    requires Fits(elts, free, len, size)
  {
    if size < |free| && free[size] != [] then free[size][|free[size]| - 1]
    else free[0][FirstRoom(elts, len, free[0], size)]
  }

  // Block e is free and of exactly this size, or large enough and larger than any
  // request so far.
  ghost predicate Serves(elts: seq<Elt>, chain: seq<nat>, len: nat, maxSize: nat, size: nat, e: nat) {
    && e in chain && e < |elts| && IsFree(elts, e)
    && (SizeOf(elts, len, e) == size || SizeOf(elts, len, e) > maxSize) && SizeOf(elts, len, e) >= size
  }

  // The addresses [o, o + size) lie in one free block.
  ghost predicate FreeSpan(elts: seq<Elt>, chain: seq<nat>, len: nat, o: nat, size: nat) {
    exists e :: e in chain && e < |elts| && IsFree(elts, e)
                && elts[e].offset <= o && o + size <= elts[e].offset + SizeOf(elts, len, e)
  }

  // A request fits exactly when some free block serves it; a block of exactly its
  // size goes before any other.
  lemma FitsBySize(elts: seq<Elt>, free: seq<seq<nat>>, removed: seq<nat>, chain: seq<nat>, len: nat, maxSize: nat, size: nat)
    requires HeapOk(elts, free, removed, chain, len, maxSize) && size > 0
    ensures Fits(elts, free, len, size) <==> exists e :: Serves(elts, chain, len, maxSize, size, e)
    ensures Fits(elts, free, len, size) ==>
              var e := Pick(elts, free, len, size);
              && Serves(elts, chain, len, maxSize, size, e)
              && (size <= maxSize && (exists d :: Serves(elts, chain, len, maxSize, size, d) && SizeOf(elts, len, d) == size) ==>
                    SizeOf(elts, len, e) == size)
  {
    hide ChainOk, Partition, NoTwoFree, Cleared;
    forall e | Serves(elts, chain, len, maxSize, size, e)
      ensures Fits(elts, free, len, size)
      ensures SizeOf(elts, len, e) == size && size <= maxSize ==> size < |free| && free[size] != []
    {
      assert Listed(elts, free, len, maxSize + 1, e);
    }
    if Fits(elts, free, len, size) {
      PickServes(elts, free, chain, len, maxSize, size);
    }
  }

  lemma PickServes(elts: seq<Elt>, free: seq<seq<nat>>, chain: seq<nat>, len: nat, maxSize: nat, size: nat)
    requires FreeOk(elts, free, chain, len, maxSize + 1) && size > 0 && Fits(elts, free, len, size)
    ensures var e := Pick(elts, free, len, size);
            && Serves(elts, chain, len, maxSize, size, e)
            && (size < |free| && free[size] != [] ==> SizeOf(elts, len, e) == size)
  {
    if size < |free| && free[size] != [] {
      assert Backed(elts, free, chain, len, maxSize + 1, size, |free[size]| - 1);
    } else {
      var k := FirstRoom(elts, len, free[0], size);
      assert Backed(elts, free, chain, len, maxSize + 1, 0, k);
    }
  }

  // What a request which fits is cut from lies below len.
  lemma PickedSpan(elts: seq<Elt>, free: seq<seq<nat>>, removed: seq<nat>, chain: seq<nat>, len: nat, maxSize: nat, size: nat)
    requires HeapOk(elts, free, removed, chain, len, maxSize) && size > 0 && Fits(elts, free, len, size)
    ensures var e := Pick(elts, free, len, size);
            && e in chain && e < |elts| && IsFree(elts, e) && SizeOf(elts, len, e) >= size
            && elts[e].offset + SizeOf(elts, len, e) <= len
  {
    hide ChainOk, Partition, NoTwoFree, Cleared, FreeOk;
    PickServes(elts, free, chain, len, maxSize, size);
    var i := MemberAt(chain, Pick(elts, free, len, size));
    BlockBelow(elts, chain, len, i);
  }

  lemma BlockBelow(elts: seq<Elt>, chain: seq<nat>, len: nat, i: nat)
    requires ChainOk(elts, chain, len) && i < |chain| && chain[i] < |elts|
    ensures elts[chain[i]].offset + SizeOf(elts, len, chain[i]) <= len
  {
    OffsetsIncrease(elts, chain, len, i, |chain|);
  }

  lemma SpareSize(elts: seq<Elt>, free: seq<seq<nat>>, removed: seq<nat>, chain: seq<nat>, len: nat, maxSize: nat,
                  elts1: seq<Elt>, removed1: seq<nat>, n: nat, i: nat)
    requires HeapOk(elts, free, removed, chain, len, maxSize) && Spare(elts, removed, chain, elts1, removed1, n) && i < |chain|
    ensures n < |elts1| && n !in chain && n != chain[i] && |elts| <= |elts1| <= NIL && Distinct(chain)
    ensures chain[i] < |elts| && elts1[chain[i]] == elts[chain[i]]
    ensures elts1[chain[i]].next == NextIn(chain, i) && elts1[chain[i]].prev == PrevIn(chain, i)
    ensures i + 1 < |chain| ==> chain[i + 1] < |elts| && chain[i + 1] in chain
    ensures i > 0 ==> chain[i - 1] < |elts1|
    ensures ChainOk(elts1, chain, len)
  {
    SpareFrame(elts, removed, chain, elts1, removed1, n, len);
    assert BlockAt(elts, chain, len, i) && chain[i] in chain;
    assert i > 0 ==> BlockAt(elts, chain, len, i - 1);
    assert i + 1 < |chain| ==> BlockAt(elts, chain, len, i + 1) && chain[i + 1] in chain;
  }

  lemma OutFacts(elts: seq<Elt>, chain: seq<nat>, len: nat, e: nat)
    requires e in AllocMap(elts, chain, len)
    ensures e in chain && e < |elts| && !IsFree(elts, e)
    ensures AllocMap(elts, chain, len)[e] == (elts[e].offset, SizeOf(elts, len, e))
  {
  }

  lemma RaiseMax(elts: seq<Elt>, free: seq<seq<nat>>, removed: seq<nat>, chain: seq<nat>, len: nat, maxSize: nat, size: nat)
    requires HeapOk(elts, free, removed, chain, len, maxSize) && size >= maxSize && LargeOnly(elts, free, len, size + 1)
    ensures HeapOk(elts, free, removed, chain, len, size)
  {
    RaiseThreshold(elts, free, chain, len, maxSize + 1, size + 1);
  }

  lemma NoneFits(elts: seq<Elt>, free: seq<seq<nat>>, len: nat, size: nat)
    requires !(size < |free| && free[size] != [])
    requires |free| > 0 ==> forall k :: 0 <= k < |free[0]| && free[0][k] < |elts| ==> SizeOf(elts, len, free[0][k]) < size
    ensures !Fits(elts, free, len, size)
  {
  }

  lemma ExactFound(elts: seq<Elt>, free: seq<seq<nat>>, len: nat, size: nat)
    requires size < |free| && free[size] != []
    ensures Fits(elts, free, len, size) && Pick(elts, free, len, size) == free[size][|free[size]| - 1]
  {
  }

  lemma FirstFound(elts: seq<Elt>, free: seq<seq<nat>>, len: nat, size: nat, fi: nat)
    requires |free| > 0 && fi < |free[0]| && free[0][fi] < |elts| && SizeOf(elts, len, free[0][fi]) >= size
    requires forall k :: 0 <= k < fi && free[0][k] < |elts| ==> SizeOf(elts, len, free[0][k]) < size
    requires !(size < |free| && free[size] != [])
    ensures Fits(elts, free, len, size) && Pick(elts, free, len, size) == free[0][fi]
  {
    var k := FirstRoom(elts, len, free[0], size);
    assert k <= fi && fi <= k;
  }

  lemma PickedFree(elts: seq<Elt>, free: seq<seq<nat>>, removed: seq<nat>, chain: seq<nat>, len: nat, maxSize: nat, size: nat)
    requires HeapOk(elts, free, removed, chain, len, maxSize) && size > 0 && Fits(elts, free, len, size)
    ensures var e := Pick(elts, free, len, size);
            e < |elts| && FreeSpan(elts, chain, len, elts[e].offset, size) && elts[e].offset + size <= len
  {
    PickedSpan(elts, free, removed, chain, len, maxSize, size);
  }

  lemma WithinSpan(elts: seq<Elt>, chain: seq<nat>, len: nat, o: nat, s: nat, o': nat, s': nat)
    requires FreeSpan(elts, chain, len, o, s) && o <= o' && o' + s' <= o + s
    ensures FreeSpan(elts, chain, len, o', s')
  {
    var e :| e in chain && e < |elts| && IsFree(elts, e)
             && elts[e].offset <= o && o + s <= elts[e].offset + SizeOf(elts, len, e);
  }

  lemma PowOfZero()
    ensures Pow2(0) == 1
  {
  }

  // Least multiple of a that is at least o.
  function AlignUp(o: nat, a: nat): (r: nat)
    requires a > 0
    ensures r % a == 0 && o <= r < o + a
  {
    RoundUpFacts(o, a);
    (o + a - 1) / a * a
  }

  lemma RoundUpFacts(o: nat, a: nat)
    requires a > 0
    ensures ((o + a - 1) / a * a) % a == 0 && o <= (o + a - 1) / a * a < o + a
  {
    var q := (o + a - 1) / a;
    assert q * a + (o + a - 1) % a == o + a - 1;
    MultipleMod(q, a);
  }

  lemma MultipleMod(q: nat, a: nat)
    requires a > 0
    ensures (q * a) % a == 0
  {
    var x := q * a;
    var d := q - x / a;
    assert x == x / a * a + x % a;
    assert d * a == q * a - x / a * a;
    MulSign(d, a);
  }

  lemma NextTaken(elts: seq<Elt>, free: seq<seq<nat>>, removed: seq<nat>, chain: seq<nat>, len: nat, maxSize: nat, i: nat)
    requires HeapOk(elts, free, removed, chain, len, maxSize) && i < |chain| && chain[i] < |elts| && IsFree(elts, chain[i])
    ensures i + 1 < |chain| ==> chain[i + 1] < |elts| && !IsFree(elts, chain[i + 1]) && chain[i + 1] != chain[i]
  {
    OneFreeOnly(elts, chain, i);
  }

  lemma EmptyChain(elts: seq<Elt>, chain: seq<nat>, len: nat)
    requires ChainOk(elts, chain, len)
    ensures chain == [] <==> len == 0
    ensures chain != [] ==> chain[|chain| - 1] < |elts|
  {
    InRange(elts, chain, len);
  }

  lemma SpareBounds(elts: seq<Elt>, removed: seq<nat>, chain: seq<nat>, elts1: seq<Elt>, removed1: seq<nat>, n: nat, len: nat)
    requires ChainOk(elts, chain, len) && |elts| <= len < NIL && Spare(elts, removed, chain, elts1, removed1, n)
    ensures n < |elts1| <= |elts| + 1 && |elts| <= |elts1| && n !in chain
  {
  }

  class Heap {
    var elts: seq<Elt>

    // Free elements by size; those too large for a list of their own are in list 0.
    var free: seq<seq<nat>>
    var removed: seq<nat>
    var head: nat
    var tail: nat

    // Addresses in use so far, the largest request, and the bound on addresses.
    var len: nat
    var maxSize: nat
    var maxLen: nat

    // Element indices in address order.
    ghost var chain: seq<nat>

    ghost predicate Valid()
      reads this
    {
      HeapOk(elts, free, removed, chain, len, maxSize) && Ends(chain, head, tail)
    }

    // The blocks handed out, by id, with offset and size.
    ghost function Alloc(): map<nat, Span>
      reads this
    {
      AllocMap(elts, chain, len)
    }

    // Every block of list 0 is larger than any size asked for so far and size.
    ghost predicate Settled(size: nat)
      reads this
    {
      LargeOnly(elts, free, len, size + 1)
    }

    constructor (maxLen: nat)
      ensures Valid() && Alloc() == map[] && len == 0 && this.maxLen == maxLen && maxSize == 0 && elts == [] && free == []
    {
      elts, free, removed := [], [], [];
      head, tail, len, maxSize := 0, 0, 0, 0;
      this.maxLen := maxLen;
      chain := [];
    }

    // A cleared element, of the recycled ones if there are any.
    method NewElt() returns (ei: nat)
      requires Valid()
      modifies this`elts, this`removed
      ensures Spare(old(elts), old(removed), chain, elts, removed, ei)
    {
      var l := |removed|;
      if l > 0 {
        SpareByPop(elts, removed, chain);
        ei := removed[l - 1];
        removed := removed[..l - 1];
        elts := elts[ei := POISON];
      } else {
        assert removed == [];
        SpareByPush(elts, chain);
        ei := |elts|;
        elts := elts + [POISON];
      }
    }

    // Puts ei on the list for its size; i is its place in the chain, if it has one.
    method FreeElt(ei: nat, size: nat, ghost i: nat)
      requires Valid() && ei < |elts|
      requires i < |chain| ==> chain[i] == ei && !IsFree(elts, ei) && size == SizeOf(elts, len, ei) && NeighboursTaken(elts, chain, i)
      modifies this`elts, this`free
      ensures var c := if size > maxSize then 0 else size;
              elts == PushElts(old(elts), old(free), c, ei) && free == PushFree(old(free), c, ei)
      ensures i < |chain| ==> Valid() && Alloc() == old(Alloc()) - {ei}
    {
      hide HeapOk, AllocMap, SameLinks;
      if i < |chain| {
        FreeStep(elts, free, removed, chain, len, maxSize, i);
      }
      var c := if size > maxSize then 0 else size;
      free := Validated(free, c);
      elts := elts[ei := elts[ei].(free := |free[c]|)];
      free := free[c := free[c] + [ei]];
    }

    // Take ei off the list for its size and recycle it; false is the source's
    // panic over a corrupt free list.
    method RemoveFreeElt(ei: nat, size: nat) returns (found: bool)
      requires ei < |elts| && |free| > 0 && EntriesKnown(free, |elts|)
      modifies this`elts, this`free, this`removed
      ensures found == Found(old(elts), old(free), ei, size)
      ensures found ==> var c, k := ListFor(old(free), size), old(elts)[ei].free;
                        && old(free)[c][|old(free)[c]| - 1] < |old(elts)|
                        && elts == UnlistElts(old(elts), old(free), c, k)[ei := POISON]
                        && free == UnlistFree(old(free), c, k) && removed == old(removed) + [ei]
      ensures !found ==> elts == old(elts) && free == old(free) && removed == old(removed)
    {
      var fi := elts[ei].free;
      var c := if size >= |free| then 0 else size;
      var l := |free[c]|;
      if fi < l && free[c][fi] == ei {
        if fi < l - 1 {
          var gi := free[c][l - 1];
          free := free[c := free[c][fi := gi]];
          elts := elts[gi := elts[gi].(free := fi)];
        }
        free := free[c := free[c][..l - 1]];
        elts := elts[ei := POISON];
        removed := removed + [ei];
        return true;
      }
      return false;
    }

    // Block ei reaches down over the one before it.
    method StretchPrev(ei: nat)
      requires ei < |elts| <= NIL && elts[ei].prev < |elts| && elts[ei].prev != ei
      requires elts[elts[ei].prev].prev != NIL ==> elts[elts[ei].prev].prev < |elts|
      modifies this`elts
      ensures elts == MergePrev(old(elts), ei) && |elts| == |old(elts)|
      ensures forall y: nat :: y < |elts| ==> elts[y].free == old(elts)[y].free
    {
      var prev := elts[elts[ei].prev];
      elts := elts[ei := elts[ei].(offset := prev.offset, prev := prev.prev)];
      if prev.prev != NIL {
        elts := elts[prev.prev := elts[prev.prev].(next := ei)];
      }
    }

    // Block ei reaches up over the one after it.
    method StretchNext(ei: nat)
      requires ei < |elts| <= NIL && elts[ei].next < |elts| && elts[ei].next != ei
      requires elts[elts[ei].next].next != NIL ==> elts[elts[ei].next].next < |elts|
      modifies this`elts
      ensures elts == MergeNext(old(elts), ei) && |elts| == |old(elts)|
      ensures forall y: nat :: y < |elts| ==> elts[y].free == old(elts)[y].free
    {
      var next := elts[elts[ei].next];
      elts := elts[ei := elts[ei].(next := next.next)];
      if next.next != NIL {
        elts := elts[next.next := elts[next.next].(prev := ei)];
      }
    }

    // Combine with the free element before ei.
    method MergeWithPrev(ei: nat, ghost i: nat)
      requires Valid() && 0 < i < |chain| && chain[i] == ei && ei < |elts| && !IsFree(elts, ei)
      requires chain[i - 1] < |elts| && IsFree(elts, chain[i - 1])
      modifies this`elts, this`free, this`removed, this`head, this`chain
      ensures Valid() && chain == Without(old(chain), i - 1)
      ensures ei < |elts| && !IsFree(elts, ei)
      ensures i > 1 ==> chain[i - 2] < |elts| && !IsFree(elts, chain[i - 2])
      ensures var p := old(chain)[i - 1];
              Alloc() == old(Alloc())[ei := (old(elts)[p].offset, SizeOf(old(elts), len, p) + SizeOf(old(elts), len, ei))]
    {
      hide HeapOk, AllocMap, UnlistElts, UnlistFree, Found, EntriesKnown, MergePrev;
      ghost var elts0, free0 := elts, free;
      Neighbours(elts, free, removed, chain, len, maxSize, i);
      FreeBlockFound(elts, free, removed, chain, len, maxSize, i - 1);
      var pi := elts[ei].prev;
      var ps := elts[ei].offset - elts[pi].offset;
      StretchPrev(ei);
      FoundStill(elts0, elts, free, pi, ps);
      var found := RemoveFreeElt(pi, ps);
      FoundPlace(elts0, free0, pi, ps);
      MergePrevStep(elts0, free0, old(removed), chain, len, maxSize, i, ListFor(free0, ps), elts0[pi].free);
      if pi == head {
        head := ei;
      }
      chain := Without(chain, i - 1);
    }

    // Combine with the free element after ei.
    method MergeWithNext(ei: nat, ghost i: nat)
      requires Valid() && i + 1 < |chain| && chain[i] == ei && ei < |elts| && !IsFree(elts, ei)
      requires chain[i + 1] < |elts| && IsFree(elts, chain[i + 1])
      modifies this`elts, this`free, this`removed, this`tail, this`chain
      ensures Valid() && chain == Without(old(chain), i + 1)
      ensures ei < |elts| == |old(elts)| && !IsFree(elts, ei)
      ensures i + 1 < |chain| ==> chain[i + 1] < |elts| && !IsFree(elts, chain[i + 1])
      ensures i > 0 ==> chain[i - 1] < |elts| && (IsFree(elts, chain[i - 1]) <==> IsFree(old(elts), chain[i - 1]))
      ensures var n := old(chain)[i + 1];
              Alloc() == old(Alloc())[ei := (old(elts)[ei].offset, SizeOf(old(elts), len, ei) + SizeOf(old(elts), len, n))]
    {
      hide HeapOk, AllocMap, UnlistElts, UnlistFree, Found, EntriesKnown, MergeNext;
      ghost var elts0, free0 := elts, free;
      Neighbours(elts, free, removed, chain, len, maxSize, i);
      FreeBlockFound(elts, free, removed, chain, len, maxSize, i + 1);
      var ni := elts[ei].next;
      var ns := SizeOf(elts, len, ni);
      StretchNext(ei);
      FoundStill(elts0, elts, free, ni, ns);
      var found := RemoveFreeElt(ni, ns);
      FoundPlace(elts0, free0, ni, ns);
      MergeNextStep(elts0, free0, old(removed), chain, len, maxSize, i, ListFor(free0, ns), elts0[ni].free);
      if ni == tail {
        tail := ei;
      }
      chain := Without(chain, i + 1);
    }

    // Returns a block; false is the source's panic over a duplicate free.  It comes
    // exactly when the element is a free block of the chain.  An element that was
    // merged away and recycled is not noticed: it is listed as a free block, of a
    // size that wrapped around, and stays recycled.
    method Put(ei: nat) returns (ok: bool)
      requires Valid() && ei < |elts|
      modifies this`elts, this`free, this`removed, this`head, this`tail, this`chain
      ensures !ok <==> ei in old(chain) && ei !in old(Alloc())
      ensures ei in old(chain) ==> Valid() && Alloc() == old(Alloc()) - {ei}
      ensures !ok ==> chain == old(chain) && elts == old(elts) && free == old(free) && removed == old(removed)
      ensures Valid() <==> ei in old(chain)
      ensures ei !in old(chain) ==>
                && ei in removed && removed == old(removed) && chain == old(chain) && Alloc() == old(Alloc())
                && var c := if len + 1 > maxSize then 0 else len + 1;
                   elts == PushElts(old(elts), old(free), c, ei) && free == PushFree(old(free), c, ei)
    {
      hide HeapOk, AllocMap, PushElts, PushFree;
      ghost var i := Place(ei);
      if elts[ei].free != NIL {
        return false;
      }
      ok := true;
      i := TakeInPrev(ei, i);
      TakeInNext(ei, i);
      var es := SizeOf(elts, len, ei) % INDICES;
      if i < |chain| {
        Neighbours(elts, free, removed, chain, len, maxSize, i);
        SizeBound(elts, free, removed, chain, len, maxSize, i);
      }
      ghost var elts1, free1 := elts, free;
      FreeElt(ei, es, i);
      if i == |chain| {
        ghost var c := if es > maxSize then 0 else es;
        RecycledListed(elts, free1, removed, ei, c);
        RecycledOut(elts1, free1, chain, len, ei, c);
      }
    }

    // The place of ei in the chain; its end, if ei is recycled.
    lemma Place(ei: nat) returns (i: nat)
      requires Valid() && ei < |elts|
      ensures ei !in chain ==> i == |chain| && elts[ei] == POISON && ei in removed && ei !in Alloc()
                               && SizeOf(elts, len, ei) % INDICES == len + 1
      ensures ei in chain ==> i < |chain| && chain[i] == ei && (elts[ei].free == NIL <==> ei in Alloc())
    {
      i := |chain|;
      if ei in chain {
        i := MemberAt(chain, ei);
      }
    }

    // Combines a free element before ei with it.
    method TakeInPrev(ei: nat, ghost i: nat) returns (ghost j: nat)
      requires Valid() && ei < |elts| && !IsFree(elts, ei)
      requires if i < |chain| then chain[i] == ei else i == |chain| && elts[ei] == POISON
      modifies this`elts, this`free, this`removed, this`head, this`chain
      ensures Valid() && ei < |elts| && !IsFree(elts, ei) && Alloc() - {ei} == old(Alloc()) - {ei}
      ensures i < |old(chain)| ==> j < |chain| && chain[j] == ei && (j > 0 ==> chain[j - 1] < |elts| && !IsFree(elts, chain[j - 1]))
      ensures i == |old(chain)| ==> j == i && elts == old(elts) && free == old(free) && removed == old(removed) && chain == old(chain)
    {
      hide HeapOk, AllocMap;
      j := i;
      if i < |chain| {
        Neighbours(elts, free, removed, chain, len, maxSize, i);
      }
      if elts[ei].prev != NIL {
        if elts[elts[ei].prev].free != NIL {
          MergeWithPrev(ei, i);
          j := i - 1;
        }
      }
    }

    // Combines a free element after ei with it.
    method TakeInNext(ei: nat, ghost i: nat)
      requires Valid() && ei < |elts| && !IsFree(elts, ei)
      requires if i < |chain| then chain[i] == ei else i == |chain| && elts[ei] == POISON
      requires 0 < i < |chain| ==> chain[i - 1] < |elts| && !IsFree(elts, chain[i - 1])
      modifies this`elts, this`free, this`removed, this`tail, this`chain
      ensures Valid() && ei < |elts| && !IsFree(elts, ei) && Alloc() - {ei} == old(Alloc()) - {ei}
      ensures i < |old(chain)| ==> i < |chain| && chain[i] == ei
      ensures i < |old(chain)| && i > 0 ==> chain[i - 1] < |elts| && !IsFree(elts, chain[i - 1])
      ensures i + 1 < |chain| ==> chain[i + 1] < |elts| && !IsFree(elts, chain[i + 1])
      ensures i == |old(chain)| ==> elts == old(elts) && free == old(free) && removed == old(removed) && chain == old(chain)
    {
      hide HeapOk, AllocMap;
      if i < |chain| {
        Neighbours(elts, free, removed, chain, len, maxSize, i);
      }
      if elts[ei].next != NIL {
        if elts[elts[ei].next].free != NIL {
          MergeWithNext(ei, i);
        }
      }
    }

    // A new element takes over block ei from address at on.
    method NewAfter(ei: nat, at: nat, ghost i: nat) returns (ni: nat)
      requires Valid() && i < |chain| && chain[i] == ei && ei < |elts| && !IsFree(elts, ei)
      requires elts[ei].offset < at < elts[ei].offset + SizeOf(elts, len, ei)
      modifies this`elts, this`removed, this`tail, this`chain
      ensures Valid() && chain == InsertAfter(old(chain), i, ni)
      ensures ni < |elts| && ei < |elts| && ni != ei && ni !in old(Alloc()) && !IsFree(elts, ni) && !IsFree(elts, ei)
      ensures i + 1 < |old(chain)| ==> var y := old(chain)[i + 1];
                y < |elts| && y < |old(elts)| && (IsFree(elts, y) <==> IsFree(old(elts), y))
      ensures Alloc() == old(Alloc())[ei := (old(elts)[ei].offset, at - old(elts)[ei].offset)]
                                     [ni := (at, old(elts)[ei].offset + SizeOf(old(elts), len, ei) - at)]
    {
      hide HeapOk, AllocMap, Spare, SplitAfter, ChainOk;
      ghost var elts0, removed0 := elts, removed;
      ni := NewElt();
      SpareSize(elts0, free, removed0, chain, len, maxSize, elts, removed, ni, i);
      NotOut(elts0, chain, len, ni);
      SplitHighStep(elts0, free, removed0, chain, len, maxSize, elts, removed, ni, i, at);
      ghost var elts1 := elts;
      LinkAfter(ei, ni, at);
      chain := InsertAfter(chain, i, ni);
    }

    method LinkAfter(ei: nat, ni: nat, at: nat)
      requires ei < |elts| && ni < |elts| && ei != ni && |elts| <= NIL
      requires elts[ei].next != NIL ==> elts[ei].next < |elts|
      modifies this`elts, this`tail
      ensures elts == SplitAfter(old(elts), ei, ni, at) && |elts| == |old(elts)|
      ensures tail == if old(elts)[ei].next == NIL then ni else old(tail)
    {
      var next := elts[ei].next;
      elts := elts[ni := elts[ni].(prev := ei, next := next, offset := at)];
      if next == NIL {
        tail := ni;
      } else {
        elts := elts[next := elts[next].(prev := ni)];
      }
      elts := elts[ei := elts[ei].(next := ni)];
    }

    // Split off the upper freeSize of the block ei and free it.
    method FreeAfter(ei: nat, eSize: nat, freeSize: nat, ghost i: nat)
      requires Valid() && i < |chain| && chain[i] == ei && ei < |elts| && !IsFree(elts, ei)
      requires eSize == SizeOf(elts, len, ei) && 0 < freeSize < eSize
      requires i + 1 < |chain| ==> chain[i + 1] < |elts| && !IsFree(elts, chain[i + 1])
      modifies this`elts, this`free, this`removed, this`tail, this`chain
      ensures Valid() && ei in chain
      ensures Alloc() == old(Alloc())[ei := (old(elts)[ei].offset, eSize - freeSize)]
    {
      hide HeapOk, AllocMap, NoTwoFree;
      ghost var at := elts[ei].offset + (eSize - freeSize);
      var fi := NewAfter(ei, elts[ei].offset + (eSize - freeSize), i);
      assert chain[i] == ei && chain[i + 1] == fi && (i + 2 < |chain| ==> chain[i + 2] == old(chain)[i + 1]);
      Neighbours(elts, free, removed, chain, len, maxSize, i + 1);
      OutSize(elts, chain, len, fi);
      ForgetUpper(old(Alloc()), ei, fi, (at - (eSize - freeSize), eSize - freeSize), (at, freeSize));
      FreeElt(fi, freeSize, i + 1);
    }

    // Hand out the block freed last among those of exactly this size.
    method TakeExact(size: nat) returns (id: nat)
      requires Valid() && 0 < size < |free| && free[size] != []
      modifies this`elts, this`free
      ensures Valid() && id < |elts| && id !in old(Alloc()) && id == old(free)[size][|old(free)[size]| - 1]
      ensures id < |old(elts)| && elts[id].offset == old(elts)[id].offset
      ensures Alloc() == old(Alloc())[id := (elts[id].offset, size)]
    {
      hide HeapOk, AllocMap, UnlistElts, UnlistFree;
      var l := |free[size]|;
      ExactSize(elts, free, removed, chain, len, maxSize, size);
      TakeStep(elts, free, removed, chain, len, maxSize, size, l - 1);
      id := free[size][l - 1];
      free := free[size := free[size][..l - 1]];
      elts := elts[id := elts[id].(free := NIL)];
    }

    // First block of list 0 that is large enough.
    method FindLarge(size: nat) returns (fi: nat, found: bool)
      requires Valid() && |free| > 0
      ensures found ==> fi < |free[0]| && free[0][fi] < |elts| && SizeOf(elts, len, free[0][fi]) >= size
      ensures fi <= |free[0]| && forall k :: 0 <= k < fi && free[0][k] < |elts| ==> SizeOf(elts, len, free[0][k]) < size
      ensures !found ==> fi == |free[0]|
    {
      hide HeapOk;
      var l := |free[0]|;
      fi := 0;
      while fi < l
        invariant fi <= l
        invariant forall k :: 0 <= k < fi && free[0][k] < |elts| ==> SizeOf(elts, len, free[0][k]) < size
      {
        LargeEntry(elts, free, removed, chain, len, maxSize, fi);
        var ei := free[0][fi];
        var es := SizeOf(elts, len, ei);
        if es >= size {
          return fi, true;
        }
        fi := fi + 1;
      }
      return fi, false;
    }

    // Hand out the first part of the fi-th block of list 0.
    method TakeLarge(fi: nat, size: nat) returns (id: nat)
      requires Valid() && |free| > 0 && fi < |free[0]| && size > 0
      requires free[0][fi] < |elts| && SizeOf(elts, len, free[0][fi]) >= size
      modifies this`elts, this`free, this`removed, this`tail, this`chain
      ensures Valid() && id !in old(Alloc()) && id == old(free)[0][fi]
      ensures Alloc() == old(Alloc())[id := (old(elts)[id].offset, size)]
    {
      hide HeapOk, AllocMap, NoTwoFree, NeighboursTaken;
      LargeEntry(elts, free, removed, chain, len, maxSize, fi);
      TakeStep(elts, free, removed, chain, len, maxSize, 0, fi);
      var ei := free[0][fi];
      ghost var i := MemberAt(chain, ei);
      NextTaken(elts, free, removed, chain, len, maxSize, i);
      var es := SizeOf(elts, len, ei);
      id := ei;
      PopLarge(fi);
      SameLinksSizes(old(elts), elts, len);
      if es > size {
        FreeAfter(ei, es, es - size, i);
      }
    }

    // The last entry of list 0 takes the place of the fi-th.
    method PopLarge(fi: nat)
      requires |free| > 0 && fi < |free[0]| && free[0][fi] < |elts| && free[0][|free[0]| - 1] < |elts|
      modifies this`elts, this`free
      ensures elts == UnlistElts(old(elts), old(free), 0, fi) && free == UnlistFree(old(free), 0, fi)
    {
      var l := |free[0]|;
      var ei := free[0][fi];
      if fi < l - 1 {
        var gi := free[0][l - 1];
        free := free[0 := free[0][fi := gi]];
        elts := elts[gi := elts[gi].(free := fi)];
      }
      free := free[0 := free[0][..l - 1]];
      elts := elts[ei := elts[ei].(free := NIL)];
    }

    // Append a block at the end.
    method Grow(size: nat) returns (id: nat)
      requires Valid() && size > 0 && len + size < NIL
      modifies this`elts, this`removed, this`head, this`tail, this`len, this`chain
      ensures Valid() && len == old(len) + size && id !in old(Alloc())
      ensures Alloc() == old(Alloc())[id := (old(len), size)]
    {
      hide AllocMap, Spare, ChainOk, FreeOk, NoTwoFree;
      ghost var elts0, removed0, chain0 := elts, removed, chain;
      EmptyChain(elts, chain, len);
      if len == 0 {
        head := 0;
        tail := NIL;
      }
      var ei := NewElt();
      SpareBounds(elts0, removed0, chain0, elts, removed, ei, len);
      NotOut(elts0, chain0, len, ei);
      AppendStep(elts0, free, removed0, chain0, len, maxSize, elts, removed, ei, size);
      ghost var elts1 := elts;
      elts := elts[ei := Elt(len, NIL, NIL, tail)];
      if tail != NIL {
        elts := elts[tail := elts[tail].(next := ei)];
      }
      assert elts == Appended(elts1, chain0, len, ei);
      len := len + size;
      tail := ei;
      chain := chain + [ei];
      id := ei;
    }

    // sizeArg is what the caller asked for, size what is needed to align it.  A free
    // block serves if one can, and only then the addresses in use stay as many.
    method Get(sizeArg: nat, size: nat) returns (r: GetResult)
      requires Valid() && len + size < NIL && (sizeArg > maxSize ==> Settled(sizeArg))
      modifies this
      ensures Valid() && maxSize == (if sizeArg > old(maxSize) then sizeArg else old(maxSize)) && maxLen == old(maxLen)
      ensures r.ZeroSize? <==> size == 0
      ensures r.Overflow? <==> size > 0 && !old(Fits(elts, free, len, size)) && maxLen != 0 && old(len) + size > maxLen
      ensures r.Block? ==> r.id !in old(Alloc()) && Alloc() == old(Alloc())[r.id := (r.offset, size)]
      ensures !r.Block? ==> Alloc() == old(Alloc())
      ensures len == if r.Block? && !old(Fits(elts, free, len, size)) then old(len) + size else old(len)
      ensures r.Block? && old(Fits(elts, free, len, size)) ==>
                && r.id == old(Pick(elts, free, len, size)) && r.id < |old(elts)| && r.offset == old(elts)[r.id].offset
                && r.offset + size <= old(len) && old(FreeSpan(elts, chain, len, r.offset, size))
      ensures r.Block? && !old(Fits(elts, free, len, size)) ==> r.offset == old(len)
    {
      hide HeapOk, AllocMap, LargeOnly, FreeSpan, Fits, Pick;
      if sizeArg > maxSize {
        RaiseMax(elts, free, removed, chain, len, maxSize, sizeArg);
        maxSize := sizeArg;
      }
      if size <= 0 {
        return ZeroSize;
      }
      if Fits(elts, free, len, size) {
        PickedFree(elts, free, removed, chain, len, maxSize, size);
      }
      // A free block that fits exactly.
      if size < |free| {
        if |free[size]| > 0 {
          ExactFound(elts, free, len, size);
          var id := TakeExact(size);
          return Block(id, elts[id].offset);
        }
      }
      // A large one of which a part is enough.
      if |free| > 0 {
        var fi, found := FindLarge(size);
        if found {
          var offset := elts[free[0][fi]].offset;
          FirstFound(elts, free, len, size, fi);
          var id := TakeLarge(fi, size);
          return Block(id, offset);
        }
      }
      NoneFits(elts, free, len, size);
      if maxLen != 0 && len + size > maxLen {
        return Overflow;
      }
      var offset := len;
      var id := Grow(size);
      return Block(id, offset);
    }

    // A new element takes over block ei up to address at.
    method NewBefore(ei: nat, at: nat, ghost i: nat) returns (pi: nat)
      requires Valid() && i < |chain| && chain[i] == ei && ei < |elts| && !IsFree(elts, ei)
      requires elts[ei].offset < at < elts[ei].offset + SizeOf(elts, len, ei)
      modifies this`elts, this`removed, this`head, this`chain
      ensures Valid() && pi in chain && pi < |elts| && pi != ei && pi !in old(Alloc())
      ensures Alloc() == old(Alloc())[ei := (at, old(elts)[ei].offset + SizeOf(old(elts), len, ei) - at)]
                                     [pi := (old(elts)[ei].offset, at - old(elts)[ei].offset)]
    {
      hide HeapOk, AllocMap, Spare, SplitBefore, ChainOk;
      ghost var elts0, removed0 := elts, removed;
      pi := NewElt();
      SpareSize(elts0, free, removed0, chain, len, maxSize, elts, removed, pi, i);
      NotOut(elts0, chain, len, pi);
      SplitLowStep(elts0, free, removed0, chain, len, maxSize, elts, removed, pi, i, at);
      ghost var elts1 := elts;
      LinkBefore(ei, pi, at);
      chain := InsertedBefore(chain, i, pi);
      assert chain[i] == pi;
    }

    method LinkBefore(ei: nat, pi: nat, at: nat)
      requires ei < |elts| && pi < |elts| && ei != pi && |elts| <= NIL
      requires elts[ei].prev != NIL ==> elts[ei].prev < |elts| && elts[ei].prev != pi
      modifies this`elts, this`head
      ensures elts == SplitBefore(old(elts), ei, pi, at) && |elts| == |old(elts)|
      ensures head == if old(elts)[ei].prev == NIL then pi else old(head)
    {
      var o := elts[ei].offset;
      var prev := elts[ei].prev;
      elts := elts[pi := elts[pi].(next := ei, prev := prev)];
      if prev == NIL {
        head := pi;
      } else {
        elts := elts[prev := elts[prev].(next := pi)];
      }
      elts := elts[ei := elts[ei].(prev := pi)];
      elts := elts[pi := elts[pi].(offset := o)];
      elts := elts[ei := elts[ei].(offset := at)];
    }

    // A block of sizeArg at an address divisible by 2^log2Alignment.
    method GetAligned(sizeArg: nat, log2Alignment: nat) returns (r: GetResult)
      requires Valid() && sizeArg > 0 && len + sizeArg + Pow2(log2Alignment) - 1 < NIL
      requires sizeArg > maxSize ==> Settled(sizeArg)
      modifies this
      ensures Valid() && maxSize == (if sizeArg > old(maxSize) then sizeArg else old(maxSize)) && maxLen == old(maxLen)
      ensures !r.ZeroSize?
      ensures r.Block? ==> r.offset % Pow2(log2Alignment) == 0
      ensures r.Block? ==> r.id !in old(Alloc()) && Alloc() == old(Alloc())[r.id := (r.offset, sizeArg)]
      ensures r.Overflow? <==>
                var s := sizeArg + Pow2(log2Alignment) - 1;
                !old(Fits(elts, free, len, sizeArg + Pow2(log2Alignment) - 1)) && maxLen != 0 && old(len) + s > maxLen
      ensures r.Overflow? ==> Alloc() == old(Alloc())
      ensures var s := sizeArg + Pow2(log2Alignment) - 1;
              len == if r.Block? && !old(Fits(elts, free, len, sizeArg + Pow2(log2Alignment) - 1)) then old(len) + s else old(len)
      ensures r.Block? && old(Fits(elts, free, len, sizeArg + Pow2(log2Alignment) - 1)) ==>
                && r.id == old(Pick(elts, free, len, sizeArg + Pow2(log2Alignment) - 1)) && r.id < |old(elts)|
                && r.offset == AlignUp(old(elts)[r.id].offset, Pow2(log2Alignment))
                && r.offset + sizeArg <= old(len) && old(FreeSpan(elts, chain, len, r.offset, sizeArg))
      ensures r.Block? && !old(Fits(elts, free, len, sizeArg + Pow2(log2Alignment) - 1)) ==>
                r.offset == AlignUp(old(len), Pow2(log2Alignment))
    {
      hide HeapOk, AllocMap, Fits, Pow2, LargeOnly, Pick, FreeSpan;
      // Enough to cut an aligned block from, wherever it starts.
      var a := Pow2(log2Alignment);
      PowOfZero();
      var s := sizeArg + a - 1;
      r := Get(sizeArg, s);
      if r.Block? {
        var o := r.offset;
        var ao := AlignUp(o, a);
        if old(Fits(elts, free, len, s)) {
          WithinSpan(old(elts), old(chain), old(len), o, s, ao, sizeArg);
        }
        if log2Alignment > 0 {
          TrimBelow(r.id, o, s, ao);
          TrimAbove(r.id, ao, o + s, sizeArg);
        }
        r := Block(r.id, ao);
      }
    }

    // Free the part of block ei below ao.
    method TrimBelow(ei: nat, o: nat, s: nat, ao: nat)
      requires Valid() && ei in Alloc() && Alloc()[ei] == (o, s) && o <= ao < o + s
      modifies this`elts, this`free, this`removed, this`head, this`tail, this`chain
      ensures Valid() && Alloc() == old(Alloc())[ei := (ao, o + s - ao)]
    {
      hide HeapOk, AllocMap;
      OutFacts(elts, chain, len, ei);
      ghost var i := MemberAt(chain, ei);
      if ao - o != 0 {
        var pi := NewBefore(ei, ao, i);
        ghost var a1 := Alloc();
        var ok := Put(pi);
        ForgetUpper(old(Alloc()), ei, pi, (ao, o + s - ao), (o, ao - o));
      }
    }

    // Free the part of block ei beyond sizeArg.
    method TrimAbove(ei: nat, ao: nat, end: nat, sizeArg: nat)
      requires Valid() && ei in Alloc() && ao + sizeArg <= end && Alloc()[ei] == (ao, end - ao) && sizeArg > 0
      modifies this`elts, this`free, this`removed, this`head, this`tail, this`chain
      ensures Valid() && Alloc() == old(Alloc())[ei := (ao, sizeArg)]
    {
      hide HeapOk, AllocMap;
      OutFacts(elts, chain, len, ei);
      ghost var i := MemberAt(chain, ei);
      if end - (ao + sizeArg) > 0 {
        var ni := NewAfter(ei, ao + sizeArg, i);
        assert chain[i + 1] == ni;
        var ok := Put(ni);
        ForgetUpper(old(Alloc()), ei, ni, (ao, sizeArg), (ao + sizeArg, end - (ao + sizeArg)));
      }
    }
  }

  // A run after which the heap has grown although a free block had room: Get(3), Put
  // of that block, Get(2).
  method RoomUnusedExample() returns (h: Heap)
    ensures fresh(h) && h.Valid() && h.len == 5 && |h.Alloc()| == 1
    ensures forall id :: id in h.Alloc() ==> h.Alloc()[id] == (3, 2)
  {
    hide HeapOk, AllocMap, Fits, Pick, FreeSpan;
    h := new Heap(0);
    NothingFits(h, 3);
    var r := h.Get(3, 3);
    OutFacts(h.elts, h.chain, h.len, r.id);
    var ok := h.Put(r.id);
    assert h.Alloc() == map[];
    OneFreeBlock(h, 2);
    r := h.Get(2, 2);
  }

  // In a new heap no request fits, and list 0 is empty.
  lemma NothingFits(h: Heap, size: nat)
    requires h.elts == [] && h.free == []
    ensures !Fits(h.elts, h.free, h.len, size) && h.Settled(size)
  {
  }

  // One free block of the largest size ever asked for serves no smaller request.
  lemma OneFreeBlock(h: Heap, size: nat)
    requires h.Valid() && h.Alloc() == map[] && 0 < size < h.len == h.maxSize
    ensures !Fits(h.elts, h.free, h.len, size)
  {
    AllReturned(h.elts, h.free, h.removed, h.chain, h.len, h.maxSize);
    FitsBySize(h.elts, h.free, h.removed, h.chain, h.len, h.maxSize, size);
    forall e
      ensures !Serves(h.elts, h.chain, h.len, h.maxSize, size, e)
    {
      assert e in h.chain ==> e == h.chain[0];
    }
  }
}

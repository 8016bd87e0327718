// The chain of blocks of the allocator: elements linked in address order that
// tile [0, len) without gap or overlap.
module BlockChain {
  import opened Basics

  const NIL: nat := 0xFFFF_FFFF

  datatype Elt = Elt(offset: nat, free: nat, next: nat, prev: nat)

  const POISON := Elt(NIL, NIL, NIL, NIL)

  function SizeOf(elts: seq<Elt>, len: nat, e: nat): int
    requires e < |elts|
  {
    (if elts[e].next < |elts| then elts[elts[e].next].offset else len) - elts[e].offset
  }

  function PrevIn(chain: seq<nat>, i: nat): nat
    requires i < |chain|
  {
    if i == 0 then NIL else chain[i - 1]
  }

  function NextIn(chain: seq<nat>, i: nat): nat
    requires i < |chain|
  {
    if i + 1 == |chain| then NIL else chain[i + 1]
  }

  // The i-th block is linked to its neighbours and ends, past its start, where
  // the next begins.
  ghost predicate BlockAt(elts: seq<Elt>, chain: seq<nat>, len: nat, i: nat)
    requires i < |chain|
  {
    && chain[i] < |elts|
    && elts[chain[i]].prev == PrevIn(chain, i) && elts[chain[i]].next == NextIn(chain, i)
    && SizeOf(elts, len, chain[i]) > 0
  }

  ghost predicate ChainOk(elts: seq<Elt>, chain: seq<nat>, len: nat) {
    && |elts| <= NIL && Distinct(chain)
    && (forall i :: 0 <= i < |chain| ==> BlockAt(elts, chain, len, i))
    && (chain == [] <==> len == 0)
    && (chain != [] ==> chain[0] < |elts| && elts[chain[0]].offset == 0)
  }

  ghost predicate IsFree(elts: seq<Elt>, e: nat)
    requires e < |elts|
  {
    elts[e].free != NIL
  }

  ghost predicate NoTwoFree(elts: seq<Elt>, chain: seq<nat>)
    requires forall i :: 0 <= i < |chain| ==> chain[i] < |elts|
  {
    forall i, j :: 0 <= i < |chain| && j == i + 1 && j < |chain| ==> !IsFree(elts, chain[i]) || !IsFree(elts, chain[j])
  }

  // m is elts but for n and blocks of the chain.
  ghost predicate OnlyIn(elts: seq<Elt>, m: seq<Elt>, chain: seq<nat>, n: nat) {
    |m| == |elts| && forall y: nat :: y < |elts| && y !in chain && y != n ==> m[y] == elts[y]
  }

  // ---- consequences of the chain invariant: the blocks tile [0, len)

  function OffsetAt(elts: seq<Elt>, chain: seq<nat>, len: nat, i: nat): nat
    requires forall k :: 0 <= k < |chain| ==> chain[k] < |elts|
  {
    if i < |chain| then elts[chain[i]].offset else len
  }

  lemma BlockEnd(elts: seq<Elt>, chain: seq<nat>, len: nat, i: nat)
    requires ChainOk(elts, chain, len) && i < |chain|
    ensures forall k :: 0 <= k < |chain| ==> chain[k] < |elts|
    ensures OffsetAt(elts, chain, len, i) + SizeOf(elts, len, chain[i]) == OffsetAt(elts, chain, len, i + 1)
  {
    forall k | 0 <= k < |chain|
      ensures chain[k] < |elts|
    {
      assert BlockAt(elts, chain, len, k);
    }
    assert BlockAt(elts, chain, len, i);
  }

  lemma {:induction false} OffsetsIncrease(elts: seq<Elt>, chain: seq<nat>, len: nat, i: nat, j: nat)
    requires ChainOk(elts, chain, len) && i < j <= |chain|
    ensures forall k :: 0 <= k < |chain| ==> chain[k] < |elts|
    ensures OffsetAt(elts, chain, len, i) + SizeOf(elts, len, chain[i]) <= OffsetAt(elts, chain, len, j)
    decreases j - i
  {
    BlockEnd(elts, chain, len, i);
    if i + 1 < j {
      assert BlockAt(elts, chain, len, i + 1);
      OffsetsIncrease(elts, chain, len, i + 1, j);
    }
  }

  // Different blocks of the chain are disjoint, and all lie below len.
  lemma BlocksDisjoint(elts: seq<Elt>, chain: seq<nat>, len: nat, d: nat, e: nat)
    requires ChainOk(elts, chain, len) && d in chain && e in chain && d != e
    ensures d < |elts| && e < |elts|
    ensures elts[d].offset + SizeOf(elts, len, d) <= elts[e].offset || elts[e].offset + SizeOf(elts, len, e) <= elts[d].offset
    ensures elts[d].offset + SizeOf(elts, len, d) <= len
  {
    var i :| 0 <= i < |chain| && chain[i] == d;
    var j :| 0 <= j < |chain| && chain[j] == e;
    BlockEnd(elts, chain, len, i);
    OffsetsIncrease(elts, chain, len, i, |chain|);
    if i < j {
      OffsetsIncrease(elts, chain, len, i, j);
    } else {
      OffsetsIncrease(elts, chain, len, j, i);
    }
  }

  // Every address below len is in some block.
  lemma {:induction false} EveryAddressCovered(elts: seq<Elt>, chain: seq<nat>, len: nat, a: nat, n: nat) returns (e: nat)
    requires ChainOk(elts, chain, len) && n <= |chain|
    requires (forall k :: 0 <= k < |chain| ==> chain[k] < |elts|) && a < OffsetAt(elts, chain, len, n)
    ensures e in chain && e < |elts| && elts[e].offset <= a < elts[e].offset + SizeOf(elts, len, e)
  {
    BlockEnd(elts, chain, len, n - 1);
    if OffsetAt(elts, chain, len, n - 1) <= a {
      e := chain[n - 1];
    } else {
      e := EveryAddressCovered(elts, chain, len, a, n - 1);
    }
  }

  // The place of y in the chain, and what its links say.
  lemma PlaceOf(elts: seq<Elt>, chain: seq<nat>, len: nat, y: nat) returns (j: nat)
    requires ChainOk(elts, chain, len) && y in chain
    ensures j < |chain| && chain[j] == y && y < |elts| <= NIL
    ensures elts[y].prev == PrevIn(chain, j) && elts[y].next == NextIn(chain, j)
    ensures j > 0 ==> chain[j - 1] < |elts| && chain[j - 1] != y
    ensures j + 1 < |chain| ==> chain[j + 1] < |elts| && chain[j + 1] != y
  {
    j := MemberAt(chain, y);
    assert BlockAt(elts, chain, len, j);
    assert j > 0 ==> BlockAt(elts, chain, len, j - 1);
    assert j + 1 < |chain| ==> BlockAt(elts, chain, len, j + 1);
  }

  // Sizes depend on an offset and that of the next element.
  lemma SizeKept(elts: seq<Elt>, m: seq<Elt>, len: nat, y: nat)
    requires |m| == |elts| && y < |elts| && m[y].offset == elts[y].offset && m[y].next == elts[y].next
    requires elts[y].next < |elts| ==> m[elts[y].next].offset == elts[elts[y].next].offset
    ensures SizeOf(m, len, y) == SizeOf(elts, len, y)
  {
  }

  // The same when the next element was replaced by one at the same offset.
  lemma SizeMoved(elts: seq<Elt>, m: seq<Elt>, len: nat, y: nat)
    requires |m| == |elts| && y < |elts| && m[y].offset == elts[y].offset
    requires elts[y].next < |elts| && m[y].next < |elts| && m[m[y].next].offset == elts[elts[y].next].offset
    ensures SizeOf(m, len, y) == SizeOf(elts, len, y)
  {
  }

  lemma ChainDistinct(elts: seq<Elt>, chain: seq<nat>, len: nat)
    requires ChainOk(elts, chain, len)
    ensures Distinct(chain) && |elts| <= NIL
  {
  }

  lemma LinksAt(elts: seq<Elt>, chain: seq<nat>, len: nat, i: nat)
    requires ChainOk(elts, chain, len) && i < |chain|
    ensures chain[i] < |elts| <= NIL && SizeOf(elts, len, chain[i]) > 0 && chain[i] in chain
    ensures elts[chain[i]].prev == PrevIn(chain, i) && elts[chain[i]].next == NextIn(chain, i)
    ensures PrevIn(chain, i) != chain[i] && NextIn(chain, i) != chain[i]
    ensures i > 1 ==> chain[i - 2] != chain[i]
    ensures i + 2 < |chain| ==> chain[i + 2] != chain[i]
  {
    assert BlockAt(elts, chain, len, i);
  }

  lemma Apart(chain: seq<nat>, i: nat, j: nat)
    requires Distinct(chain) && i < |chain| && j < |chain|
    ensures chain[i] == chain[j] <==> i == j
  {
  }

  // ---- splitting a block: n becomes the upper part of the i-th block

  function SplitAfter(elts: seq<Elt>, e: nat, n: nat, at: nat): seq<Elt>
    requires e < |elts| && n < |elts|
  {
    var a := elts[n := elts[n].(offset := at, next := elts[e].next, prev := e)];
    var b := if a[n].next < |elts| then a[a[n].next := a[a[n].next].(prev := n)] else a;
    b[e := b[e].(next := n)]
  }

  lemma SplitAfterFields(elts: seq<Elt>, e: nat, n: nat, at: nat)
    requires e < |elts| && n < |elts| && e != n && elts[e].next != n && elts[e].next != e
    ensures var m, x := SplitAfter(elts, e, n, at), elts[e].next;
            && |m| == |elts| && m[e] == elts[e].(next := n) && m[n] == Elt(at, elts[n].free, x, e)
            && (x < |elts| ==> m[x] == elts[x].(prev := n))
            && forall y: nat :: y < |elts| && y != e && y != n && y != x ==> m[y] == elts[y]
  {
  }

  // The parts have the sizes asked for and nothing else moves.
  lemma SplitAfterSpans(elts: seq<Elt>, chain: seq<nat>, len: nat, i: nat, n: nat, at: nat)
    requires ChainOk(elts, chain, len) && i < |chain| && n < |elts| && n !in chain && chain[i] < |elts|
    ensures var e, m := chain[i], SplitAfter(elts, chain[i], n, at);
            && |m| == |elts| && m[e].offset == elts[e].offset && m[n].offset == at && m[e].next == n
            && SizeOf(m, len, e) == at - elts[e].offset
            && SizeOf(m, len, n) == elts[e].offset + SizeOf(elts, len, e) - at
            && (forall y: nat :: y < |elts| ==> m[y].free == elts[y].free)
            && (forall y: nat :: y < |elts| && y != n ==> m[y].offset == elts[y].offset)
            && (forall y :: y in chain && y != e ==> y < |elts| && SizeOf(m, len, y) == SizeOf(elts, len, y))
  {
    hide SplitAfter, ChainOk;
    var e := chain[i];
    var m := SplitAfter(elts, e, n, at);
    var i' := PlaceOf(elts, chain, len, e);
    assert e != n && elts[e].next != n;
    SplitAfterFields(elts, e, n, at);
    forall y | y in chain && y != e
      ensures y < |elts| && SizeOf(m, len, y) == SizeOf(elts, len, y)
    {
      var j := PlaceOf(elts, chain, len, y);
      assert elts[y].next != n;
      SizeKept(elts, m, len, y);
    }
  }

  lemma InsertedAt(s: seq<nat>, i: nat, n: nat, k: nat)
    requires i < |s| && k <= |s|
    ensures |InsertAfter(s, i, n)| == |s| + 1
    ensures InsertAfter(s, i, n)[k] == if k <= i then s[k] else if k == i + 1 then n else s[k - 1]
    ensures PrevIn(InsertAfter(s, i, n), k) ==
            if k <= i then PrevIn(s, k) else if k == i + 1 then s[i] else if k == i + 2 then n else PrevIn(s, k - 1)
    ensures NextIn(InsertAfter(s, i, n), k) ==
            if k < i then NextIn(s, k) else if k == i then n else NextIn(s, k - 1)
  {
  }

  lemma SplitAfterAt(elts: seq<Elt>, chain: seq<nat>, len: nat, i: nat, n: nat, at: nat, k: nat)
    requires ChainOk(elts, chain, len) && i < |chain| && n < |elts| && n !in chain && k <= |chain|
    requires chain[i] < |elts| && elts[chain[i]].offset < at < elts[chain[i]].offset + SizeOf(elts, len, chain[i])
    ensures BlockAt(SplitAfter(elts, chain[i], n, at), InsertAfter(chain, i, n), len, k)
  {
    hide SplitAfter, ChainOk, SizeOf, InsertAfter, Distinct;
    var k0 := if k <= i then k else if k == i + 1 then i else k - 1;
    InsertedAt(chain, i, n, k);
    ChainDistinct(elts, chain, len);
    LinksAt(elts, chain, len, k0);
    LinksAt(elts, chain, len, i);
    Apart(chain, k0, i);
    if i + 1 < |chain| {
      LinksAt(elts, chain, len, i + 1);
      Apart(chain, k0, i + 1);
    }
    SplitAfterFields(elts, chain[i], n, at);
    SplitAfterSpans(elts, chain, len, i, n, at);
  }

  lemma SplitAfterOk(elts: seq<Elt>, chain: seq<nat>, len: nat, i: nat, n: nat, at: nat)
    requires ChainOk(elts, chain, len) && i < |chain| && n < |elts| && n !in chain
    requires chain[i] < |elts| && elts[chain[i]].offset < at < elts[chain[i]].offset + SizeOf(elts, len, chain[i])
    ensures ChainOk(SplitAfter(elts, chain[i], n, at), InsertAfter(chain, i, n), len)
  {
    var e := chain[i];
    var m := SplitAfter(elts, e, n, at);
    var c := InsertAfter(chain, i, n);
    forall k: nat | k < |c|
      ensures BlockAt(m, c, len, k)
    {
      SplitAfterAt(elts, chain, len, i, n, at, k);
    }
    assert BlockAt(elts, chain, len, 0);
  }

  // ---- splitting off the lower part: n takes the place of the i-th block up to at

  function InsertedBefore(chain: seq<nat>, i: nat, n: nat): seq<nat>
    requires i < |chain|
  {
    chain[..i] + [n] + chain[i..]
  }

  function SplitBefore(elts: seq<Elt>, e: nat, n: nat, at: nat): seq<Elt>
    requires e < |elts| && n < |elts|
  {
    var a := elts[n := elts[n].(next := e, prev := elts[e].prev, offset := elts[e].offset)];
    var b := if a[n].prev < |elts| then a[a[n].prev := a[a[n].prev].(next := n)] else a;
    b[e := b[e].(prev := n, offset := at)]
  }

  lemma SplitBeforeFields(elts: seq<Elt>, e: nat, n: nat, at: nat)
    requires e < |elts| && n < |elts| && e != n && elts[e].prev != n && elts[e].prev != e
    ensures var m, x := SplitBefore(elts, e, n, at), elts[e].prev;
            && |m| == |elts| && m[e] == elts[e].(prev := n, offset := at) && m[n] == Elt(elts[e].offset, elts[n].free, e, x)
            && (x < |elts| ==> m[x] == elts[x].(next := n))
            && forall y: nat :: y < |elts| && y != e && y != n && y != x ==> m[y] == elts[y]
  {
  }

  lemma SplitBeforeBelow(elts: seq<Elt>, chain: seq<nat>, len: nat, i: nat, n: nat, at: nat, k: nat)
    requires Distinct(chain) && i < |chain| && n < |elts| <= NIL && n !in chain && k <= i
    requires BlockAt(elts, chain, len, i) && (i > 0 ==> BlockAt(elts, chain, len, i - 1))
    requires BlockAt(elts, chain, len, k)
    requires elts[chain[i]].offset < at < elts[chain[i]].offset + SizeOf(elts, len, chain[i])
    ensures BlockAt(SplitBefore(elts, chain[i], n, at), InsertedBefore(chain, i, n), len, k)
  {
    var c := InsertedBefore(chain, i, n);
    if k < i {
      assert c[k] == chain[k];
      assert k + 1 < i ==> c[k + 1] == chain[k + 1];
    } else {
      assert c[k] == n && c[k + 1] == chain[i];
    }
  }

  lemma SplitBeforeAbove(elts: seq<Elt>, chain: seq<nat>, len: nat, i: nat, n: nat, at: nat, k: nat)
    requires Distinct(chain) && i < |chain| && n < |elts| <= NIL && n !in chain && i < k <= |chain|
    requires BlockAt(elts, chain, len, i) && (i > 0 ==> BlockAt(elts, chain, len, i - 1))
    requires BlockAt(elts, chain, len, k - 1)
    requires k < |chain| ==> BlockAt(elts, chain, len, k)
    requires elts[chain[i]].offset < at < elts[chain[i]].offset + SizeOf(elts, len, chain[i])
    ensures BlockAt(SplitBefore(elts, chain[i], n, at), InsertedBefore(chain, i, n), len, k)
  {
    var c := InsertedBefore(chain, i, n);
    assert c[k] == chain[k - 1];
    assert k - 1 == i ==> c[k - 1] == n;
    assert k - 1 > i ==> c[k - 1] == chain[k - 2];
  }

  lemma SplitBeforeOk(elts: seq<Elt>, chain: seq<nat>, len: nat, i: nat, n: nat, at: nat)
    requires ChainOk(elts, chain, len) && i < |chain| && n < |elts| && n !in chain
    requires chain[i] < |elts| && elts[chain[i]].offset < at < elts[chain[i]].offset + SizeOf(elts, len, chain[i])
    ensures ChainOk(SplitBefore(elts, chain[i], n, at), InsertedBefore(chain, i, n), len)
  {
    var e := chain[i];
    var m := SplitBefore(elts, e, n, at);
    var c := InsertedBefore(chain, i, n);
    assert BlockAt(elts, chain, len, i) && BlockAt(elts, chain, len, 0);
    assert i > 0 ==> BlockAt(elts, chain, len, i - 1);
    forall k: nat | k < |c|
      ensures BlockAt(m, c, len, k)
    {
      assert k < |chain| ==> BlockAt(elts, chain, len, k);
      if k <= i {
        SplitBeforeBelow(elts, chain, len, i, n, at, k);
      } else {
        assert BlockAt(elts, chain, len, k - 1);
        SplitBeforeAbove(elts, chain, len, i, n, at, k);
      }
    }
  }

  lemma SplitBeforeSpans(elts: seq<Elt>, chain: seq<nat>, len: nat, i: nat, n: nat, at: nat)
    requires ChainOk(elts, chain, len) && i < |chain| && n < |elts| && n !in chain && chain[i] < |elts|
    ensures var e, m := chain[i], SplitBefore(elts, chain[i], n, at);
            && |m| == |elts| && m[e].offset == at && m[n].offset == elts[e].offset && m[n].next == e
            && SizeOf(m, len, n) == at - elts[e].offset
            && SizeOf(m, len, e) == elts[e].offset + SizeOf(elts, len, e) - at
            && (forall y: nat :: y < |elts| ==> m[y].free == elts[y].free)
            && (forall y: nat :: y < |elts| && y != n && y != e ==> m[y].offset == elts[y].offset)
            && (forall y :: y in chain && y != e ==> y < |elts| && SizeOf(m, len, y) == SizeOf(elts, len, y))
  {
    hide SplitBefore, ChainOk;
    var e := chain[i];
    var m := SplitBefore(elts, e, n, at);
    var i' := PlaceOf(elts, chain, len, e);
    ChainDistinct(elts, chain, len);
    Apart(chain, i, i');
    assert e != n && elts[e].next != n && elts[e].prev != n;
    SplitBeforeFields(elts, e, n, at);
    forall y | y in chain && y != e
      ensures y < |elts| && SizeOf(m, len, y) == SizeOf(elts, len, y)
    {
      var j := PlaceOf(elts, chain, len, y);
      if j + 1 == i {
        SizeMoved(elts, m, len, y);
      } else {
        if j + 1 < |chain| {
          Apart(chain, j + 1, i);
        }
        if i > 0 {
          Apart(chain, j, i - 1);
        }
        SizeKept(elts, m, len, y);
      }
    }
  }

  // ---- merging: the i-th block takes in the one before it, or the one after

  function MergePrev(elts: seq<Elt>, e: nat): seq<Elt>
    requires e < |elts| && elts[e].prev < |elts|
  {
    var p := elts[elts[e].prev];
    var a := elts[e := elts[e].(offset := p.offset, prev := p.prev)];
    if p.prev < |elts| then a[p.prev := a[p.prev].(next := e)] else a
  }

  lemma MergePrevFields(elts: seq<Elt>, e: nat)
    requires e < |elts| && elts[e].prev < |elts| && elts[e].prev != e && elts[elts[e].prev].prev != e
    ensures var m, p := MergePrev(elts, e), elts[e].prev;
            var x := elts[p].prev;
            && |m| == |elts| && m[e] == elts[e].(offset := elts[p].offset, prev := x)
            && (x < |elts| ==> m[x] == elts[x].(next := e))
            && forall y: nat :: y < |elts| && y != e && y != x ==> m[y] == elts[y]
  {
  }

  lemma MergePrevSpans(elts: seq<Elt>, chain: seq<nat>, len: nat, i: nat)
    requires ChainOk(elts, chain, len) && 0 < i < |chain|
    requires chain[i] < |elts| && elts[chain[i]].prev == chain[i - 1] && chain[i - 1] < |elts|
    ensures var e, p, m := chain[i], chain[i - 1], MergePrev(elts, chain[i]);
            && |m| == |elts| && m[e].offset == elts[p].offset
            && SizeOf(elts, len, p) == elts[e].offset - elts[p].offset
            && SizeOf(m, len, e) == SizeOf(elts, len, p) + SizeOf(elts, len, e)
            && (forall y: nat :: y < |elts| ==> m[y].free == elts[y].free)
            && (forall y: nat :: y < |elts| && y != e ==> m[y].offset == elts[y].offset)
            && (forall y :: y in chain && y != e && y != p ==> y < |elts| && SizeOf(m, len, y) == SizeOf(elts, len, y))
  {
    hide MergePrev, ChainOk;
    var e, p := chain[i], chain[i - 1];
    var m := MergePrev(elts, e);
    ChainDistinct(elts, chain, len);
    var i' := PlaceOf(elts, chain, len, e);
    var h := PlaceOf(elts, chain, len, p);
    Apart(chain, i, i');
    Apart(chain, i - 1, h);
    if i > 1 {
      Apart(chain, i, i - 2);
    }
    MergePrevFields(elts, e);
    forall y | y in chain && y != e && y != p
      ensures y < |elts| && SizeOf(m, len, y) == SizeOf(elts, len, y)
    {
      var j := PlaceOf(elts, chain, len, y);
      if j + 1 == i - 1 {
        SizeMoved(elts, m, len, y);
      } else {
        if j + 1 < |chain| {
          Apart(chain, j + 1, i);
        }
        if i > 1 {
          Apart(chain, j, i - 2);
        }
        SizeKept(elts, m, len, y);
      }
    }
  }

  lemma WithoutAt(s: seq<nat>, q: nat, k: nat)
    requires q < |s| && k + 1 < |s|
    ensures |Without(s, q)| == |s| - 1 && Without(s, q)[k] == s[if k < q then k else k + 1]
    ensures PrevIn(Without(s, q), k) == (if k < q then PrevIn(s, k) else if k == q then PrevIn(s, q) else s[k])
    ensures NextIn(Without(s, q), k) == (if k + 1 < q then NextIn(s, k) else if k + 1 == q then NextIn(s, q) else NextIn(s, k + 1))
  {
  }

  lemma MergePrevAt(elts: seq<Elt>, chain: seq<nat>, len: nat, i: nat, k: nat)
    requires ChainOk(elts, chain, len) && 0 < i < |chain| && k + 1 < |chain|
    requires chain[i] < |elts| && elts[chain[i]].prev == chain[i - 1] && chain[i - 1] < |elts|
    ensures BlockAt(MergePrev(elts, chain[i]), Without(chain, i - 1), len, k)
  {
    hide MergePrev, ChainOk, SizeOf, Without, Distinct;
    var k0 := if k < i - 1 then k else k + 1;
    WithoutAt(chain, i - 1, k);
    ChainDistinct(elts, chain, len);
    LinksAt(elts, chain, len, k0);
    LinksAt(elts, chain, len, i);
    LinksAt(elts, chain, len, i - 1);
    MergePrevFields(elts, chain[i]);
    MergePrevSpans(elts, chain, len, i);
    var m, y := MergePrev(elts, chain[i]), chain[k0];
    if k0 == i {
      assert m[y].prev == PrevIn(chain, i - 1) && m[y].next == NextIn(chain, i);
    } else {
      Apart(chain, k0, i);
      Apart(chain, k0, i - 1);
      if i > 1 {
        Apart(chain, k0, i - 2);
      }
      assert m[y].prev == elts[y].prev && m[y].next == if k0 == i - 2 then chain[i] else elts[y].next;
      assert SizeOf(m, len, y) == SizeOf(elts, len, y);
    }
  }

  lemma MergePrevOk(elts: seq<Elt>, chain: seq<nat>, len: nat, i: nat)
    requires ChainOk(elts, chain, len) && 0 < i < |chain|
    ensures chain[i] < |elts| && elts[chain[i]].prev == chain[i - 1] && chain[i - 1] < |elts|
    ensures ChainOk(MergePrev(elts, chain[i]), Without(chain, i - 1), len)
  {
    var e := chain[i];
    assert BlockAt(elts, chain, len, i) && BlockAt(elts, chain, len, i - 1);
    assert i > 1 ==> BlockAt(elts, chain, len, i - 2);
    var m := MergePrev(elts, e);
    var c := Without(chain, i - 1);
    WithoutMembers(chain, i - 1);
    forall k: nat | k < |c|
      ensures BlockAt(m, c, len, k)
    {
      MergePrevAt(elts, chain, len, i, k);
    }
    assert BlockAt(elts, chain, len, 0);
  }

  function MergeNext(elts: seq<Elt>, e: nat): seq<Elt>
    requires e < |elts| && elts[e].next < |elts|
  {
    var n := elts[elts[e].next];
    var a := elts[e := elts[e].(next := n.next)];
    if n.next < |elts| then a[n.next := a[n.next].(prev := e)] else a
  }

  lemma MergeNextFields(elts: seq<Elt>, e: nat)
    requires e < |elts| && elts[e].next < |elts| && elts[e].next != e && elts[elts[e].next].next != e
    ensures var m, n := MergeNext(elts, e), elts[e].next;
            var x := elts[n].next;
            && |m| == |elts| && m[e] == elts[e].(next := x)
            && (x < |elts| ==> m[x] == elts[x].(prev := e))
            && forall y: nat :: y < |elts| && y != e && y != x ==> m[y] == elts[y]
  {
  }

  lemma MergeNextSpans(elts: seq<Elt>, chain: seq<nat>, len: nat, i: nat)
    requires ChainOk(elts, chain, len) && i + 1 < |chain|
    requires chain[i] < |elts| && elts[chain[i]].next == chain[i + 1] && chain[i + 1] < |elts|
    ensures var e, n, m := chain[i], chain[i + 1], MergeNext(elts, chain[i]);
            && |m| == |elts| && (forall y: nat :: y < |elts| ==> m[y].offset == elts[y].offset)
            && SizeOf(m, len, e) == SizeOf(elts, len, e) + SizeOf(elts, len, n)
            && (forall y: nat :: y < |elts| ==> m[y].free == elts[y].free)
            && (forall y :: y in chain && y != e && y != n ==> y < |elts| && SizeOf(m, len, y) == SizeOf(elts, len, y))
  {
    hide MergeNext, ChainOk;
    var e, n := chain[i], chain[i + 1];
    var m := MergeNext(elts, e);
    ChainDistinct(elts, chain, len);
    var i' := PlaceOf(elts, chain, len, e);
    var h := PlaceOf(elts, chain, len, n);
    Apart(chain, i, i');
    Apart(chain, i + 1, h);
    if i + 2 < |chain| {
      Apart(chain, i, i + 2);
    }
    MergeNextFields(elts, e);
    forall y | y in chain && y != e && y != n
      ensures y < |elts| && SizeOf(m, len, y) == SizeOf(elts, len, y)
    {
      var j := PlaceOf(elts, chain, len, y);
      SizeKept(elts, m, len, y);
    }
  }

  lemma MergeNextAt(elts: seq<Elt>, chain: seq<nat>, len: nat, i: nat, k: nat)
    requires ChainOk(elts, chain, len) && i + 1 < |chain| && k + 1 < |chain|
    requires chain[i] < |elts| && elts[chain[i]].next == chain[i + 1] && chain[i + 1] < |elts|
    ensures BlockAt(MergeNext(elts, chain[i]), Without(chain, i + 1), len, k)
  {
    hide MergeNext, ChainOk, SizeOf, Without, Distinct;
    var k0 := if k <= i then k else k + 1;
    WithoutAt(chain, i + 1, k);
    ChainDistinct(elts, chain, len);
    LinksAt(elts, chain, len, k0);
    LinksAt(elts, chain, len, i);
    LinksAt(elts, chain, len, i + 1);
    MergeNextFields(elts, chain[i]);
    MergeNextSpans(elts, chain, len, i);
    var m, y := MergeNext(elts, chain[i]), chain[k0];
    if k0 == i {
      assert m[y].prev == PrevIn(chain, i) && m[y].next == NextIn(chain, i + 1);
    } else {
      Apart(chain, k0, i);
      Apart(chain, k0, i + 1);
      if i + 2 < |chain| {
        Apart(chain, k0, i + 2);
      }
      assert m[y].next == elts[y].next && m[y].prev == if k0 == i + 2 then chain[i] else elts[y].prev;
      assert SizeOf(m, len, y) == SizeOf(elts, len, y);
    }
  }

  lemma MergeNextOk(elts: seq<Elt>, chain: seq<nat>, len: nat, i: nat)
    requires ChainOk(elts, chain, len) && i + 1 < |chain|
    ensures chain[i] < |elts| && elts[chain[i]].next == chain[i + 1] && chain[i + 1] < |elts|
    ensures ChainOk(MergeNext(elts, chain[i]), Without(chain, i + 1), len)
  {
    var e := chain[i];
    assert BlockAt(elts, chain, len, i) && BlockAt(elts, chain, len, i + 1);
    assert i + 2 < |chain| ==> BlockAt(elts, chain, len, i + 2);
    var m := MergeNext(elts, e);
    var c := Without(chain, i + 1);
    WithoutMembers(chain, i + 1);
    forall k: nat | k < |c|
      ensures BlockAt(m, c, len, k)
    {
      MergeNextAt(elts, chain, len, i, k);
    }
    assert BlockAt(elts, chain, len, 0);
  }

  // ---- appending a block of the given size

  function Appended(elts: seq<Elt>, chain: seq<nat>, len: nat, n: nat): seq<Elt>
    requires n < |elts|
  {
    var t := if chain == [] then NIL else chain[|chain| - 1];
    var a := elts[n := Elt(len, NIL, NIL, t)];
    if t < |elts| then a[t := a[t].(next := n)] else a
  }

  lemma AppendOk(elts: seq<Elt>, chain: seq<nat>, len: nat, n: nat, size: nat)
    requires ChainOk(elts, chain, len) && n < |elts| && n !in chain && size > 0
    ensures ChainOk(Appended(elts, chain, len, n), chain + [n], len + size)
  {
    var m, c := Appended(elts, chain, len, n), chain + [n];
    assert chain != [] ==> BlockAt(elts, chain, len, |chain| - 1) && BlockAt(elts, chain, len, 0);
    var len' := len + size;
    forall k: nat | k < |c|
      ensures BlockAt(m, c, len', k)
    {
      assert k < |chain| ==> BlockAt(elts, chain, len, k);
      assert k + 1 < |chain| ==> BlockAt(elts, chain, len, k + 1);
    }
  }

  lemma AppendSpans(elts: seq<Elt>, chain: seq<nat>, len: nat, n: nat, size: nat)
    requires ChainOk(elts, chain, len) && n < |elts| && n !in chain
    ensures var m := Appended(elts, chain, len, n);
            && |m| == |elts| && m[n].offset == len && m[n].free == NIL && SizeOf(m, len + size, n) == size
            && (forall y: nat :: y < |elts| && y != n ==> m[y].offset == elts[y].offset && m[y].free == elts[y].free)
            && (forall y :: y in chain ==> y < |elts| && SizeOf(m, len + size, y) == SizeOf(elts, len, y))
  {
    var m := Appended(elts, chain, len, n);
    assert chain != [] ==> BlockAt(elts, chain, len, |chain| - 1);
    forall y | y in chain
      ensures y < |elts| && SizeOf(m, len + size, y) == SizeOf(elts, len, y)
    {
      var j :| 0 <= j < |chain| && chain[j] == y;
      assert BlockAt(elts, chain, len, j);
      assert j + 1 < |chain| ==> BlockAt(elts, chain, len, j + 1);
    }
  }

  // The chain does not depend on the free marks, nor on elements outside it.
  lemma ChainFrame(elts: seq<Elt>, m: seq<Elt>, chain: seq<nat>, len: nat)
    requires ChainOk(elts, chain, len) && |elts| <= |m| <= NIL
    requires forall y :: y in chain && y < |elts| ==> m[y].offset == elts[y].offset && m[y].next == elts[y].next && m[y].prev == elts[y].prev
    ensures ChainOk(m, chain, len)
    ensures forall y :: y in chain ==> y < |elts| && SizeOf(m, len, y) == SizeOf(elts, len, y)
  {
    forall k | 0 <= k < |chain|
      ensures BlockAt(m, chain, len, k)
    {
      assert BlockAt(elts, chain, len, k);
      assert k + 1 < |chain| ==> BlockAt(elts, chain, len, k + 1);
    }
    assert chain != [] ==> BlockAt(elts, chain, len, 0);
    forall y | y in chain
      ensures y < |elts| && SizeOf(m, len, y) == SizeOf(elts, len, y)
    {
      var j :| 0 <= j < |chain| && chain[j] == y;
      assert BlockAt(elts, chain, len, j);
      assert j + 1 < |chain| ==> BlockAt(elts, chain, len, j + 1);
    }
  }

  // ---- none of these steps touches an element outside the chain

  lemma SplitsOnly(elts: seq<Elt>, chain: seq<nat>, len: nat, i: nat, n: nat, at: nat)
    requires ChainOk(elts, chain, len) && i < |chain| && n < |elts| && chain[i] < |elts|
    ensures OnlyIn(elts, SplitAfter(elts, chain[i], n, at), chain, n) && OnlyIn(elts, SplitBefore(elts, chain[i], n, at), chain, n)
  {
    assert BlockAt(elts, chain, len, i) && chain[i] in chain;
    assert i > 0 ==> chain[i - 1] in chain;
    assert i + 1 < |chain| ==> chain[i + 1] in chain;
  }

  lemma MergePrevOnly(elts: seq<Elt>, chain: seq<nat>, len: nat, i: nat)
    requires ChainOk(elts, chain, len) && 0 < i < |chain| && chain[i] < |elts| && elts[chain[i]].prev < |elts|
    ensures OnlyIn(elts, MergePrev(elts, chain[i]), chain, chain[i])
  {
    assert BlockAt(elts, chain, len, i) && BlockAt(elts, chain, len, i - 1) && chain[i] in chain && chain[i - 1] in chain;
    assert i > 1 ==> chain[i - 2] in chain;
  }

  lemma MergeNextOnly(elts: seq<Elt>, chain: seq<nat>, len: nat, i: nat)
    requires ChainOk(elts, chain, len) && i + 1 < |chain| && chain[i] < |elts| && elts[chain[i]].next < |elts|
    ensures OnlyIn(elts, MergeNext(elts, chain[i]), chain, chain[i])
  {
    assert BlockAt(elts, chain, len, i) && BlockAt(elts, chain, len, i + 1) && chain[i] in chain && chain[i + 1] in chain;
    assert i + 2 < |chain| ==> chain[i + 2] in chain;
  }

  lemma AppendsOnly(elts: seq<Elt>, chain: seq<nat>, len: nat, n: nat)
    requires n < |elts| <= NIL
    ensures OnlyIn(elts, Appended(elts, chain, len, n), chain, n)
  {
    assert chain != [] ==> chain[|chain| - 1] in chain;
  }
}

// Linking one root under another of the same degree, as done when the root list
// is consolidated.
module FibLinking {
  import opened Basics
  import opened FibLinks
  import opened FibShape
  import opened FibDegree
  import opened FibInvariant

  predicate CanAdopt(l: Links, x: nat, r: nat) {
    && x < |l.nodes| && r < |l.nodes| && x != r && |l.nodes| <= ROOT
    && (l.nodes[r].sub != NIL ==>
         l.nodes[r].sub != x && l.nodes[r].sub < |l.nodes| && l.Has(l.nodes[l.nodes[r].sub].next))
  }

  // x, held by no list, becomes a child of r.
  function AdoptUnder(l: Links, x: nat, r: nat): Links
    requires CanAdopt(l, x, r)
  {
    var a := l.Put(x, l.nodes[x].(isMarked := false, sup := r));
    if l.nodes[r].sub != NIL then
      a.Put(r, l.nodes[r].(nSub := l.nodes[r].nSub + 1)).LinkAfter(l.nodes[r].sub, x)
    else
      a.Put(r, l.nodes[r].(sub := x, nSub := 1, isMarked := false))
       .Put(x, l.nodes[x].(isMarked := false, sup := r, next := x, prev := x))
  }

  // The fields the invariant reads, apart from the links of the new child.
  function Prepared(l: Links, x: nat, r: nat): Links
    requires CanAdopt(l, x, r)
  {
    l.Put(x, l.nodes[x].(isMarked := false))
     .Put(r, if l.nodes[r].sub != NIL then l.nodes[r].(nSub := l.nodes[r].nSub + 1)
             else l.nodes[r].(sub := x, nSub := 1, isMarked := false))
  }

  lemma PreparedThenLinked(l: Links, x: nat, r: nat)
    requires CanAdopt(l, x, r)
    ensures var k := Prepared(l, x, r);
            && (l.nodes[r].sub != NIL ==>
                 k.Put(x, k.nodes[x].(sup := r)).LinkAfter(l.nodes[r].sub, x) == AdoptUnder(l, x, r))
            && (l.nodes[r].sub == NIL ==>
                 k.Put(x, k.nodes[x].(sup := r, next := x, prev := x)) == AdoptUnder(l, x, r))
  {
    var k := Prepared(l, x, r);
    if l.nodes[r].sub != NIL {
      var a := l.Put(x, l.nodes[x].(isMarked := false, sup := r));
      assert k.Put(x, k.nodes[x].(sup := r)).nodes == a.Put(r, l.nodes[r].(nSub := l.nodes[r].nSub + 1)).nodes;
    } else {
      assert k.Put(x, k.nodes[x].(sup := r, next := x, prev := x)).nodes == AdoptUnder(l, x, r).nodes;
    }
  }

  lemma LinkAfterFields(l: Links, p: nat, x: nat)
    requires l.Has(p) && l.Has(x) && l.Has(l.At(p).next)
    ensures |l.LinkAfter(p, x).nodes| == |l.nodes|
    ensures forall y: nat :: y < |l.nodes| ==>
              SameCounts(l.nodes[y], l.LinkAfter(p, x).nodes[y]) && l.LinkAfter(p, x).nodes[y].sup == l.nodes[y].sup
  {
  }

  lemma AdoptedFields(l: Links, x: nat, r: nat)
    requires CanAdopt(l, x, r)
    ensures var m := AdoptUnder(l, x, r);
            && |m.nodes| == |l.nodes|
            && (forall y: nat :: y < |l.nodes| && y != x && y != r ==> SameCounts(l.nodes[y], m.nodes[y]))
            && (forall y: nat :: y < |l.nodes| && y != x ==> m.nodes[y].sup == l.nodes[y].sup)
            && (m.nodes[r].isMarked ==> l.nodes[r].isMarked)
            && m.nodes[x].sup == r && !m.nodes[x].isMarked && m.nodes[x].nSub == l.nodes[x].nSub && m.nodes[x].sub == l.nodes[x].sub
            && m.nodes[r].nSub == (if l.nodes[r].sub == NIL then 1 else l.nodes[r].nSub + 1)
            && m.nodes[r].sub == (if l.nodes[r].sub == NIL then x else l.nodes[r].sub)
  {
    hide Links.LinkAfter;
    if l.nodes[r].sub != NIL {
      var a := l.Put(x, l.nodes[x].(isMarked := false, sup := r)).Put(r, l.nodes[r].(nSub := l.nodes[r].nSub + 1));
      LinkAfterFields(a, l.nodes[r].sub, x);
    }
  }

  lemma PreparedShape(l: Links, kids: Kids, x: nat, r: nat)
    requires Shape(l, kids, {x}) && CanAdopt(l, x, r)
    ensures Shape(Prepared(l, x, r), kids, {x})
  {
    hide AllOwned, AllRings, AllPlaced, LooseOk;
    ShapeFrame(l, Prepared(l, x, r), kids, {x});
  }

  // The list of children of r with x linked in.
  function AdoptedKids(s: seq<nat>, j: nat, x: nat): seq<nat>
    requires s != [] ==> j < |s|
  {
    if s == [] then [x] else InsertAfter(s, j, x)
  }

  lemma AdoptShape(l: Links, kids: Kids, x: nat, r: nat, j: nat)
    requires Shape(l, kids, {x}) && CanAdopt(l, x, r) && r in kids && r != NIL
    requires if kids[r] == [] then l.nodes[r].sub == NIL else l.nodes[r].sub != NIL && j < |kids[r]| && kids[r][j] == l.nodes[r].sub
    ensures Shape(AdoptUnder(l, x, r), kids[r := AdoptedKids(kids[r], j, x)], {})
  {
    hide AllOwned, AllRings, AllPlaced, LooseOk, AdoptUnder, Links.LinkAfter;
    var k := Prepared(l, x, r);
    PreparedShape(l, kids, x, r);
    PreparedThenLinked(l, x, r);
    assert {x} - {x} == {};
    LooseIsKey(k, kids, x);
    if kids[r] == [] {
      AttachOnly(k, kids, {x}, r, x);
    } else {
      AttachChild(k, kids, {x}, r, j, x);
    }
  }

  lemma LooseIsKey(l: Links, kids: Kids, x: nat)
    requires Shape(l, kids, {x})
    ensures x in kids && x != NIL && x < |l.nodes|
  {
    assert x in {x};
  }

  // What linking the root x under the root r does to the lists.
  ghost predicate LinkedKids(kids: Kids, kids': Kids, x: nat, r: nat, i: nat) {
    && NIL in kids && i < |kids[NIL]| && kids[NIL][i] == x
    && LinkedUnder(kids, kids', x, r) && kids'[NIL] == Without(kids[NIL], i)
    && |kids'[r]| == |kids[r]| + 1
    && forall p, c :: p in kids' && p != NIL && c in kids'[p] ==> c in kids[p] || (p == r && c == x)
  }

  ghost predicate TwoRoots(kids: Kids, x: nat, r: nat, i: nat) {
    && NIL in kids && i < |kids[NIL]| && kids[NIL][i] == x && r in kids[NIL] && x != r
    && x in kids && r in kids && |kids[x]| == |kids[r]|
  }

  lemma SubIndex(l: Links, kids: Kids, r: nat) returns (j: nat)
    requires Keyed(l, kids) && AllOwned(l, kids) && r in kids && r != NIL && Counted(l, kids, r)
    ensures if kids[r] == [] then l.nodes[r].sub == NIL && l.nodes[r].nSub == 0
            else l.nodes[r].sub != NIL && j < |kids[r]| && kids[r][j] == l.nodes[r].sub && l.nodes[r].sub < |l.nodes|
  {
    assert Owned(l, kids, r);
    j := 0;
    if kids[r] != [] {
      j := MemberAt(kids[r], l.nodes[r].sub);
    }
  }

  lemma RootFacts(l: Links, kids: Kids, x: nat)
    requires Keyed(l, kids) && AllOwned(l, kids) && x in kids[NIL]
    ensures x in kids && x != NIL && x < |l.nodes| && l.nodes[x].sup == NIL
    ensures forall p :: p in kids && p != NIL ==> x !in kids[p]
  {
    assert Owned(l, kids, NIL);
    forall p | p in kids && p != NIL
      ensures x !in kids[p]
    {
      assert Owned(l, kids, p);
    }
  }

  lemma NextIsKnown(l: Links, kids: Kids, loose: set<nat>, r: nat, j: nat)
    requires Shape(l, kids, loose) && r in kids && r != NIL && j < |kids[r]|
    ensures kids[r][j] < |l.nodes| && l.Has(l.nodes[kids[r][j]].next)
    ensures kids[r][j] !in loose
  {
    assert Owned(l, kids, r) && Ring(l, RingOf(kids, r));
    RingNeighbours(l, kids[r], j);
  }

  lemma ReadyToAdopt(l: Links, kids: Kids, x: nat, r: nat, j: nat)
    requires Shape(l, kids, {x}) && r in kids && r != NIL && x != r
    requires if kids[r] == [] then l.nodes[r].sub == NIL else l.nodes[r].sub != NIL && j < |kids[r]| && kids[r][j] == l.nodes[r].sub
    ensures CanAdopt(l, x, r)
  {
    hide AllOwned, AllRings, AllPlaced, LooseOk;
    LooseIsKey(l, kids, x);
    if kids[r] != [] {
      NextIsKnown(l, kids, {x}, r, j);
    }
  }

  lemma AdoptedAfterUnlink(l: Links, k: Links, kids: Kids, x: nat, r: nat)
    requires Relinked(l, k) && CanAdopt(k, x, r) && r in kids
    requires (kids[r] == [] <==> l.nodes[r].sub == NIL) && (kids[r] == [] ==> l.nodes[r].nSub == 0)
    ensures Adopted(l, AdoptUnder(k, x, r), kids, x, r)
  {
    hide AdoptUnder;
    AdoptedFields(k, x, r);
  }

  lemma LinkedKidsOf(l: Links, kids: Kids, x: nat, r: nat, i: nat, j: nat)
    requires Keyed(l, kids) && AllOwned(l, kids) && TwoRoots(kids, x, r, i) && (kids[r] != [] ==> j < |kids[r]|)
    ensures LinkedKids(kids, kids[NIL := Without(kids[NIL], i)][r := AdoptedKids(kids[r], j, x)], x, r, i)
  {
    var kids' := kids[NIL := Without(kids[NIL], i)][r := AdoptedKids(kids[r], j, x)];
    RootFacts(l, kids, x);
    RootFacts(l, kids, r);
    assert LinkedUnder(kids, kids', x, r);
    LinkedMembers(l, kids, kids', x, r);
  }

  // Linking keeps the invariant; x had, when linked, as many children as r.
  lemma LinkRoots(l: Links, kids: Kids, rank: map<nat, nat>, top: nat, ldeg: map<nat, nat>, x: nat, r: nat, i: nat)
    returns (kids': Kids, n: nat)
    requires Inv(l, kids, rank, top, ldeg, {}, {}) && TwoRoots(kids, x, r, i)
    ensures x < |l.nodes| <= ROOT && l.Has(l.nodes[x].prev) && l.Has(l.nodes[x].next)
    ensures CanAdopt(l.Unlink(x), x, r)
    ensures LinkedKids(kids, kids', x, r, i) && kids'.Keys == kids.Keys && r in kids
    ensures Inv(AdoptUnder(l.Unlink(x), x, r), kids', rank[r := n], if n > top then n else top, ldeg[x := |kids[r]|], {}, {})
  {
    hide AllOwned, AllRings, AllPlaced, LooseOk, AllSpread, AllKept, AdoptUnder, Links.Unlink, LinkedUnder, CanAdopt, Adopted, Ranked;
    RootFacts(l, kids, x);
    RootFacts(l, kids, r);
    assert Counted(l, kids, r);
    var j := SubIndex(l, kids, r);
    var kids1 := kids[NIL := Without(kids[NIL], i)];
    DetachOne(l, kids, x, NIL, i);
    var k := l.Unlink(x);
    ReadyToAdopt(k, kids1, x, r, j);
    AdoptShape(k, kids1, x, r, j);
    AdoptedAfterUnlink(l, k, kids, x, r);
    LinkedKidsOf(l, kids, x, r, i, j);
    kids' := kids1[r := AdoptedKids(kids[r], j, x)];
    RankedKeys(l, kids, rank, top);
    n := if rank[r] > rank[x] then rank[r] else rank[x] + 1;
    LinkedInv(l, AdoptUnder(k, x, r), kids, kids', rank, top, ldeg, x, r, n);
  }

  lemma RankedKeys(l: Links, kids: Kids, rank: map<nat, nat>, top: nat)
    requires Keyed(l, kids) && Ranked(kids, rank, top)
    ensures rank.Keys == kids.Keys - {NIL}
  {
  }
}

// The invariant of the heap, and how one cut, one deletion step and one link
// keep it.  Between the steps of a deletion one node, the owing one, has lost a
// child that its own fields do not yet account for.
module FibInvariant {
  import opened Basics
  import opened FibLinks
  import opened FibShape
  import opened FibDegree

  ghost predicate Counted(l: Links, kids: Kids, x: nat)
    requires Keyed(l, kids) && x in kids && x != NIL
  {
    && l.At(x).nSub == |kids[x]|
    && (kids[x] == [] ==> l.At(x).sub == NIL)
    && (kids[x] != [] ==> l.At(x).sub in kids[x])
  }

  ghost predicate AllCounted(l: Links, kids: Kids, exempt: set<nat>)
    requires Keyed(l, kids)
  {
    forall x :: x in kids && x != NIL && x !in exempt ==> Counted(l, kids, x)
  }

  ghost predicate Inv(l: Links, kids: Kids, rank: map<nat, nat>, top: nat, ldeg: map<nat, nat>,
                      unkept: set<nat>, uncounted: set<nat>) {
    && Shape(l, kids, {}) && Ranked(kids, rank, top)
    && ldeg.Keys == kids.Keys - {NIL}
    && AllSpread(l, kids, ldeg) && AllKept(l, kids, ldeg, unkept) && AllCounted(l, kids, uncounted)
  }

  ghost predicate Owes(l: Links, kids: Kids, ldeg: map<nat, nat>, p: nat, ni: nat)
    requires Keyed(l, kids)
  {
    && p in kids && p != NIL && p in ldeg
    && l.At(p).nSub == |kids[p]| + 1
    && (kids[p] != [] ==> ni in kids[p])
    && (l.At(p).sup != NIL ==> |kids[p]| + 1 + (if l.At(p).isMarked then 1 else 0) >= ldeg[p])
  }

  // Every parent link of kids' is one of kids.
  ghost predicate EdgesWithin(kids': Kids, kids: Kids) {
    forall p, c :: p in kids' && p != NIL && c in kids'[p] ==> p in kids && c in kids[p]
  }

  predicate SameCounts(a: FibNode, b: FibNode) {
    a.sub == b.sub && a.nSub == b.nSub && a.isMarked == b.isMarked
  }

  // m is l with x made a root and some nodes relinked.
  ghost predicate MovedToRoot(l: Links, m: Links, x: nat) {
    && |m.nodes| == |l.nodes| && x < |l.nodes|
    && (forall y: nat :: y < |l.nodes| ==> SameCounts(l.nodes[y], m.nodes[y]))
    && (forall y: nat :: y < |l.nodes| && y != x ==> m.nodes[y].sup == l.nodes[y].sup)
    && m.nodes[x].sup == NIL
  }

  // m is l with only next and prev links changed.
  ghost predicate Relinked(l: Links, m: Links) {
    && |m.nodes| == |l.nodes|
    && (forall y: nat :: y < |l.nodes| ==> SameCounts(l.nodes[y], m.nodes[y]))
    && (forall y: nat :: y < |l.nodes| ==> m.nodes[y].sup == l.nodes[y].sup)
  }

  lemma UnlinkRelinks(l: Links, x: nat)
    requires l.Has(x) && l.Has(l.At(x).prev) && l.Has(l.At(x).next)
    ensures Relinked(l, l.Unlink(x)) && l.Unlink(x).Has(x)
  {
  }

  lemma ToRootMoves(l: Links, x: nat)
    requires x < |l.nodes| <= ROOT && l.Put(x, l.At(x).(sup := NIL)).Has(l.root.next)
    ensures MovedToRoot(l, l.Put(x, l.At(x).(sup := NIL)).LinkAfter(ROOT, x), x)
  {
  }

  // ---- the parts of the invariant when child x of p is moved to the root list

  function CutKids(kids: Kids, p: nat, i: nat): Kids
    requires p in kids && NIL in kids && p != NIL && i < |kids[p]|
  {
    kids[p := Without(kids[p], i)][NIL := [kids[p][i]] + kids[NIL]]
  }

  lemma CutEdges(l: Links, kids: Kids, p: nat, i: nat)
    requires Keyed(l, kids) && AllOwned(l, kids) && p in kids && p != NIL && i < |kids[p]|
    ensures EdgesWithin(CutKids(kids, p, i), kids)
  {
    assert Owned(l, kids, p);
    WithoutMembers(kids[p], i);
  }

  lemma RankedWithin(l: Links, m: Links, kids: Kids, kids': Kids, rank: map<nat, nat>, top: nat)
    requires Keyed(l, kids) && Keyed(m, kids') && Ranked(kids, rank, top)
    requires kids'.Keys == kids.Keys && EdgesWithin(kids', kids)
    ensures Ranked(kids', rank, top)
  {
  }

  lemma DegreesWithout(s: seq<nat>, i: nat, ldeg: map<nat, nat>)
    requires i < |s| && forall c :: c in s ==> c in ldeg
    requires forall c :: c in Without(s, i) ==> c in ldeg
    ensures Degrees(Without(s, i), ldeg) == Without(Degrees(s, ldeg), i)
  {
  }

  lemma CutSpread(l: Links, m: Links, kids: Kids, ldeg: map<nat, nat>, p: nat, i: nat)
    requires Keyed(l, kids) && AllOwned(l, kids) && ldeg.Keys == kids.Keys - {NIL} && AllSpread(l, kids, ldeg)
    requires p in kids && p != NIL && i < |kids[p]|
    requires Keyed(m, CutKids(kids, p, i)) && AllOwned(m, CutKids(kids, p, i))
    ensures AllSpread(m, CutKids(kids, p, i), ldeg)
  {
    var kids' := CutKids(kids, p, i);
    forall q | q in kids' && q != NIL
      ensures Owned(m, kids', q) && Spread(Degrees(kids'[q], ldeg))
    {
      assert Owned(m, kids', q) && Owned(l, kids, q);
      assert Spread(Degrees(kids[q], ldeg));
      if q == p {
        DegreesWithout(kids[p], i, ldeg);
        SpreadWithout(Degrees(kids[p], ldeg), i);
      }
    }
  }

  lemma CutKeepsKept(l: Links, m: Links, kids: Kids, ldeg: map<nat, nat>, p: nat, i: nat, unkept: set<nat>)
    requires Keyed(l, kids) && ldeg.Keys == kids.Keys - {NIL}
    requires p in kids && p != NIL && i < |kids[p]|
    requires MovedToRoot(l, m, kids[p][i]) && Keyed(m, CutKids(kids, p, i))
    requires AllKept(l, kids, ldeg, unkept) && unkept <= {kids[p][i]}
    ensures AllKept(m, CutKids(kids, p, i), ldeg, {p})
  {
    var kids' := CutKids(kids, p, i);
    forall c | c in ldeg && c !in {p} && m.At(c).sup != NIL
      ensures Kept(m, kids', ldeg, c)
    {
      assert Kept(l, kids, ldeg, c);
    }
  }

  lemma CutKeepsCounts(l: Links, m: Links, kids: Kids, p: nat, i: nat)
    requires Keyed(l, kids) && p in kids && p != NIL && i < |kids[p]|
    requires MovedToRoot(l, m, kids[p][i]) && Keyed(m, CutKids(kids, p, i))
    requires AllCounted(l, kids, {})
    ensures AllCounted(m, CutKids(kids, p, i), {p})
  {
    var kids' := CutKids(kids, p, i);
    forall c | c in kids' && c != NIL && c !in {p}
      ensures Counted(m, kids', c)
    {
      assert Counted(l, kids, c);
    }
  }

  // The next of a child, when it has siblings, is a sibling.
  lemma NextSibling(l: Links, kids: Kids, p: nat, i: nat)
    requires Keyed(l, kids) && AllOwned(l, kids) && AllRings(l, kids)
    requires p in kids && p != NIL && i < |kids[p]|
    ensures kids[p][i] < |l.nodes|
    ensures Without(kids[p], i) != [] ==> l.At(kids[p][i]).next in Without(kids[p], i)
  {
    assert Owned(l, kids, p) && Ring(l, RingOf(kids, p));
    WithoutMembers(kids[p], i);
    RingNeighbours(l, kids[p], i);
  }

  lemma DetachOne(l: Links, kids: Kids, x: nat, p: nat, i: nat)
    requires Shape(l, kids, {})
    requires p in kids && i < |kids[p]| && kids[p][i] == x
    ensures x < |l.nodes| && l.At(x).sup == p && l.Has(l.At(x).prev) && l.Has(l.At(x).next)
    ensures Shape(l.Unlink(x), kids[p := Without(kids[p], i)], {x}) && Relinked(l, l.Unlink(x))
  {
    assert Owned(l, kids, p);
    assert {} + {x} == {x};
    Detach(l, kids, {}, x, p, i);
    UnlinkRelinks(l, x);
  }

  function ToRoot(l: Links, x: nat): Links
    requires x < |l.nodes| && |l.nodes| <= ROOT && l.Has(l.root.next)
  {
    l.Put(x, l.At(x).(sup := NIL)).LinkAfter(ROOT, x)
  }

  lemma RootAgain(l: Links, kids: Kids, loose: set<nat>, x: nat)
    requires Shape(l, kids, loose) && x in loose
    ensures x < |l.nodes| && l.Has(l.root.next)
    ensures Shape(ToRoot(l, x), kids[NIL := [x] + kids[NIL]], loose - {x}) && MovedToRoot(l, ToRoot(l, x), x)
    ensures forall y: nat :: y < |l.nodes| && y !in kids ==> ToRoot(l, x).nodes[y].next == l.nodes[y].next
  {
    AttachRoot(l, kids, loose, x);
    ToRootMoves(l, x);
  }

  lemma CutShape(l: Links, kids: Kids, x: nat, p: nat, i: nat)
    requires Shape(l, kids, {})
    requires p in kids && p != NIL && i < |kids[p]| && kids[p][i] == x
    ensures x < |l.nodes| && l.At(x).sup == p && l.Has(l.At(x).prev) && l.Has(l.At(x).next)
    ensures |l.nodes| == |l.Unlink(x).nodes| <= ROOT && l.Unlink(x).Has(l.Unlink(x).root.next)
    ensures Shape(ToRoot(l.Unlink(x), x), CutKids(kids, p, i), {}) && MovedToRoot(l, ToRoot(l.Unlink(x), x), x)
  {
    hide AllOwned, AllRings, AllPlaced, LooseOk, ToRoot, Links.Unlink;
    DetachOne(l, kids, x, p, i);
    var kids1 := kids[p := Without(kids[p], i)];
    assert {x} - {x} == {};
    RootAgain(l.Unlink(x), kids1, {x}, x);
    assert kids1[NIL := [x] + kids1[NIL]] == CutKids(kids, p, i);
  }

  // What moving the i-th child of p to the roots leaves alone.
  lemma CutFrame(l: Links, m: Links, kids: Kids, rank: map<nat, nat>, top: nat, p: nat, i: nat)
    requires Keyed(l, kids) && Ranked(kids, rank, top) && p in kids && p != NIL && i < |kids[p]|
    requires MovedToRoot(l, m, kids[p][i])
    ensures CutKids(kids, p, i).Keys == kids.Keys && kids[p][i] != p && p < |m.nodes| && m.At(p).sup == l.At(p).sup
  {
    assert kids[p][i] in kids[p] && rank[kids[p][i]] < rank[p];
  }

  // Once child x of p has moved to the root list, p owes.
  lemma CutInv(l: Links, m: Links, kids: Kids, rank: map<nat, nat>, top: nat, ldeg: map<nat, nat>, x: nat, p: nat, i: nat, unkept: set<nat>)
    requires Inv(l, kids, rank, top, ldeg, unkept, {}) && unkept <= {x}
    requires p in kids && p != NIL && i < |kids[p]| && kids[p][i] == x
    requires Shape(m, CutKids(kids, p, i), {}) && MovedToRoot(l, m, x)
    ensures var kids' := CutKids(kids, p, i);
            && Inv(m, kids', rank, top, ldeg, {p}, {p}) && EdgesWithin(kids', kids)
            && Owes(m, kids', ldeg, p, l.At(x).next) && m.At(p).sup == l.At(p).sup
  {
    hide AllOwned, AllRings, AllPlaced, LooseOk, AllKept, AllSpread, AllCounted, EdgesWithin, Owes, Ranked, CutKids, MovedToRoot;
    var kids' := CutKids(kids, p, i);
    CutFrame(l, m, kids, rank, top, p, i);
    CutEdges(l, kids, p, i);
    RankedWithin(l, m, kids, kids', rank, top);
    CutSpread(l, m, kids, ldeg, p, i);
    CutKeepsKept(l, m, kids, ldeg, p, i, unkept);
    CutKeepsCounts(l, m, kids, p, i);
    NextSibling(l, kids, p, i);
    CutOwes(l, m, kids, ldeg, p, i, unkept);
  }

  lemma CutOwes(l: Links, m: Links, kids: Kids, ldeg: map<nat, nat>, p: nat, i: nat, unkept: set<nat>)
    requires Keyed(l, kids) && ldeg.Keys == kids.Keys - {NIL}
    requires p in kids && p != NIL && i < |kids[p]| && kids[p][i] != p
    requires MovedToRoot(l, m, kids[p][i]) && Keyed(m, CutKids(kids, p, i))
    requires AllKept(l, kids, ldeg, unkept) && unkept <= {kids[p][i]} && AllCounted(l, kids, {})
    requires Without(kids[p], i) != [] ==> l.At(kids[p][i]).next in Without(kids[p], i)
    ensures Owes(m, CutKids(kids, p, i), ldeg, p, l.At(kids[p][i]).next)
  {
    assert Counted(l, kids, p);
    assert l.At(p).sup != NIL ==> Kept(l, kids, ldeg, p);
  }

  // ---- the owing node settles its account

  function Settled(n: FibNode, ni: nat): FibNode
    requires n.nSub > 0
  {
    n.(nSub := n.nSub - 1, isMarked := true, sub := if n.nSub == 1 then NIL else ni)
  }

  lemma Settle(l: Links, kids: Kids, rank: map<nat, nat>, top: nat, ldeg: map<nat, nat>, p: nat, ni: nat)
    requires Inv(l, kids, rank, top, ldeg, {p}, {p}) && Owes(l, kids, ldeg, p, ni)
    ensures var m := l.Put(p, Settled(l.At(p), ni));
            Inv(m, kids, rank, top, ldeg, if l.At(p).sup != NIL && l.At(p).isMarked then {p} else {}, {})
  {
    hide AllOwned, AllRings, AllPlaced, LooseOk, Ranked, AllKept, AllSpread, AllCounted;
    var m := l.Put(p, Settled(l.At(p), ni));
    ShapeFrame(l, m, kids, {});
    SpreadFrame(l, m, kids, ldeg);
    SettleCounts(l, kids, ldeg, p, ni);
    SettleKept(l, m, kids, ldeg, p, ni);
  }

  lemma SettleCounts(l: Links, kids: Kids, ldeg: map<nat, nat>, p: nat, ni: nat)
    requires Keyed(l, kids) && AllCounted(l, kids, {p}) && Owes(l, kids, ldeg, p, ni)
    ensures var m := l.Put(p, Settled(l.At(p), ni)); Keyed(m, kids) && AllCounted(m, kids, {})
  {
    var m := l.Put(p, Settled(l.At(p), ni));
    forall c | c in kids && c != NIL && c !in {}
      ensures Counted(m, kids, c)
    {
      assert c == p || Counted(l, kids, c);
    }
  }

  lemma SettleKept(l: Links, m: Links, kids: Kids, ldeg: map<nat, nat>, p: nat, ni: nat)
    requires Keyed(l, kids) && Keyed(m, kids) && ldeg.Keys == kids.Keys - {NIL}
    requires AllKept(l, kids, ldeg, {p}) && Owes(l, kids, ldeg, p, ni)
    requires m == l.Put(p, Settled(l.At(p), ni))
    ensures AllKept(m, kids, ldeg, if l.At(p).sup != NIL && l.At(p).isMarked then {p} else {})
  {
    forall c | c in ldeg && c !in (if l.At(p).sup != NIL && l.At(p).isMarked then {p} else {}) && m.At(c).sup != NIL
      ensures Kept(m, kids, ldeg, c)
    {
      assert c == p || Kept(l, kids, ldeg, c);
    }
  }

  lemma SpreadFrame(l: Links, m: Links, kids: Kids, ldeg: map<nat, nat>)
    requires Keyed(l, kids) && AllOwned(l, kids) && Keyed(m, kids) && AllOwned(m, kids)
    requires ldeg.Keys == kids.Keys - {NIL} && AllSpread(l, kids, ldeg)
    ensures AllSpread(m, kids, ldeg)
  {
    forall q | q in kids && q != NIL
      ensures Owned(m, kids, q) && Spread(Degrees(kids[q], ldeg))
    {
      assert Owned(l, kids, q) && Owned(m, kids, q);
    }
  }

  // ---- deletion of a node: it leaves its list and its children become roots

  // kids' is kids without x, which was the i-th child of p; the root list is free.
  ghost predicate Removed(kids: Kids, kids': Kids, x: nat, p: nat, i: nat) {
    && p in kids && i < |kids[p]| && kids[p][i] == x && x != p && x != NIL
    && kids'.Keys == kids.Keys - {x}
    && forall q :: q in kids' && q != NIL ==> kids'[q] == if q == p then Without(kids[p], i) else kids[q]
  }

  // m is l with the children of x made roots and some nodes relinked.
  ghost predicate Orphaned(l: Links, m: Links, kids: Kids, x: nat)
    requires x in kids
  {
    && |m.nodes| == |l.nodes|
    && (forall y: nat :: y < |l.nodes| ==> SameCounts(l.nodes[y], m.nodes[y]))
    && (forall y: nat :: y < |l.nodes| ==> m.nodes[y].sup == if y in kids[x] then NIL else l.nodes[y].sup)
  }

  lemma RemovedEdges(l: Links, kids: Kids, kids': Kids, x: nat, p: nat, i: nat)
    requires Keyed(l, kids) && AllOwned(l, kids) && Removed(kids, kids', x, p, i) && x in kids
    ensures EdgesWithin(kids', kids)
    ensures forall q, c :: q in kids' && q != NIL && c in kids'[q] ==> c != x
  {
    assert Owned(l, kids, p);
    WithoutMembers(kids[p], i);
    forall q, c | q in kids' && q != NIL && c in kids'[q]
      ensures c in kids[q] && c != x
    {
      assert Owned(l, kids, q);
    }
  }

  lemma RemovedRanked(l: Links, m: Links, kids: Kids, kids': Kids, rank: map<nat, nat>, top: nat, x: nat)
    requires Keyed(l, kids) && Keyed(m, kids') && Ranked(kids, rank, top)
    requires kids'.Keys == kids.Keys - {x} && x != NIL && EdgesWithin(kids', kids)
    requires forall q, c :: q in kids' && q != NIL && c in kids'[q] ==> c != x
    ensures Ranked(kids', rank - {x}, top)
  {
  }

  // The degrees of a list that x has left, or was not in.
  lemma SpreadLeft(s: seq<nat>, s': seq<nat>, ldeg: map<nat, nat>, x: nat, i: nat, left: bool)
    requires (forall c :: c in s ==> c in ldeg) && Spread(Degrees(s, ldeg)) && if left then i < |s| && s' == Without(s, i) else s' == s
    requires forall c :: c in s' ==> c in ldeg && c != x
    ensures Spread(Degrees(s', ldeg - {x}))
  {
    hide Spread, Without;
    if left {
      DegreesWithout(s, i, ldeg);
      SpreadWithout(Degrees(s, ldeg), i);
    }
    SameDegrees(s', ldeg, x);
  }

  lemma SameDegrees(s: seq<nat>, ldeg: map<nat, nat>, x: nat)
    requires forall c :: c in s ==> c in ldeg && c != x
    ensures Degrees(s, ldeg - {x}) == Degrees(s, ldeg)
  {
    var a, b := Degrees(s, ldeg - {x}), Degrees(s, ldeg);
    forall k | 0 <= k < |s|
      ensures a[k] == b[k]
    {
      assert s[k] in s;
    }
  }

  lemma RemovedSpread(l: Links, m: Links, kids: Kids, kids': Kids, ldeg: map<nat, nat>, x: nat, p: nat, i: nat)
    requires Keyed(l, kids) && AllOwned(l, kids) && ldeg.Keys == kids.Keys - {NIL} && AllSpread(l, kids, ldeg)
    requires Removed(kids, kids', x, p, i) && x in kids && Keyed(m, kids') && AllOwned(m, kids')
    ensures AllSpread(m, kids', ldeg - {x})
  {
    hide Spread, Distinct, Without, Degrees;
    forall q | q in kids' && q != NIL
      ensures Owned(m, kids', q) && Spread(Degrees(kids'[q], ldeg - {x}))
    {
      assert Owned(m, kids', q) && Owned(l, kids, q);
      assert Spread(Degrees(kids[q], ldeg));
      SpreadLeft(kids[q], kids'[q], ldeg, x, i, q == p);
    }
  }

  lemma RemovedKept(l: Links, m: Links, kids: Kids, kids': Kids, ldeg: map<nat, nat>, x: nat, p: nat, i: nat)
    requires Keyed(l, kids) && ldeg.Keys == kids.Keys - {NIL} && AllKept(l, kids, ldeg, {})
    requires Removed(kids, kids', x, p, i) && x in kids && Keyed(m, kids') && Orphaned(l, m, kids, x)
    ensures AllKept(m, kids', ldeg - {x}, if p == NIL then {} else {p})
  {
    forall c | c in ldeg - {x} && c !in (if p == NIL then {} else {p}) && m.At(c).sup != NIL
      ensures Kept(m, kids', ldeg - {x}, c)
    {
      assert Kept(l, kids, ldeg, c);
    }
  }

  lemma RemovedCounts(l: Links, m: Links, kids: Kids, kids': Kids, x: nat, p: nat, i: nat)
    requires Keyed(l, kids) && AllCounted(l, kids, {})
    requires Removed(kids, kids', x, p, i) && x in kids && Keyed(m, kids') && Orphaned(l, m, kids, x)
    ensures AllCounted(m, kids', if p == NIL then {} else {p})
  {
    forall c | c in kids' && c != NIL && c !in (if p == NIL then {} else {p})
      ensures Counted(m, kids', c)
    {
      assert Counted(l, kids, c);
    }
  }

  lemma RemovedInv(l: Links, m: Links, kids: Kids, kids': Kids, rank: map<nat, nat>, top: nat, ldeg: map<nat, nat>, x: nat, p: nat, i: nat)
    requires Inv(l, kids, rank, top, ldeg, {}, {}) && x in kids
    requires Removed(kids, kids', x, p, i) && Orphaned(l, m, kids, x) && Shape(m, kids', {})
    ensures x < |l.nodes| && l.At(x).sup == p
    ensures var e := if p == NIL then {} else {p};
            Inv(m, kids', rank - {x}, top, ldeg - {x}, e, e)
    ensures EdgesWithin(kids', kids)
    ensures forall q, c :: q in kids' && q != NIL && c in kids'[q] ==> c != x
    ensures p != NIL ==> Owes(m, kids', ldeg - {x}, p, l.At(x).next)
  {
    assert Owned(l, kids, p);
    RemovedEdges(l, kids, kids', x, p, i);
    RemovedRanked(l, m, kids, kids', rank, top, x);
    RemovedSpread(l, m, kids, kids', ldeg, x, p, i);
    RemovedKept(l, m, kids, kids', ldeg, x, p, i);
    RemovedCounts(l, m, kids, kids', x, p, i);
    if p != NIL {
      NextSibling(l, kids, p, i);
      RemovedOwes(l, m, kids, kids', ldeg, x, p, i);
    }
  }

  lemma RemovedOwes(l: Links, m: Links, kids: Kids, kids': Kids, ldeg: map<nat, nat>, x: nat, p: nat, i: nat)
    requires Keyed(l, kids) && ldeg.Keys == kids.Keys - {NIL} && AllKept(l, kids, ldeg, {}) && AllCounted(l, kids, {})
    requires Removed(kids, kids', x, p, i) && x in kids && p != NIL && Keyed(m, kids') && Orphaned(l, m, kids, x)
    requires p in kids[x] ==> l.At(p).sup != NIL
    requires Without(kids[p], i) != [] ==> l.At(x).next in Without(kids[p], i)
    ensures Owes(m, kids', ldeg - {x}, p, l.At(x).next)
  {
    assert Counted(l, kids, p);
    assert l.At(p).sup != NIL ==> Kept(l, kids, ldeg, p);
  }

  // ---- linking root x under root r of the same degree

  ghost predicate LinkedUnder(kids: Kids, kids': Kids, x: nat, r: nat) {
    && NIL in kids && r in kids && r != NIL && x in kids && x != NIL && x != r
    && kids'.Keys == kids.Keys
    && (forall q :: q in kids && q != NIL && q != r ==> kids'[q] == kids[q])
    && if kids[r] == [] then kids'[r] == [x]
       else exists j: nat :: j < |kids[r]| && kids'[r] == InsertAfter(kids[r], j, x)
  }

  ghost predicate Adopted(l: Links, m: Links, kids: Kids, x: nat, r: nat)
    requires r in kids
  {
    && |m.nodes| == |l.nodes| && x < |l.nodes| && r < |l.nodes|
    && (forall y: nat :: y < |l.nodes| && y != x && y != r ==> SameCounts(l.nodes[y], m.nodes[y]))
    && (forall y: nat :: y < |l.nodes| && y != x ==> m.nodes[y].sup == l.nodes[y].sup)
    && m.nodes[x].sup == r && !m.nodes[x].isMarked && m.nodes[x].nSub == l.nodes[x].nSub && m.nodes[x].sub == l.nodes[x].sub
    && m.nodes[r].nSub == l.nodes[r].nSub + 1
    && m.nodes[r].sub == (if kids[r] == [] then x else l.nodes[r].sub)
  }

  lemma LinkedMembers(l: Links, kids: Kids, kids': Kids, x: nat, r: nat)
    requires Keyed(l, kids) && AllOwned(l, kids) && LinkedUnder(kids, kids', x, r) && x !in kids[r]
    ensures |kids'[r]| == |kids[r]| + 1
    ensures forall c :: c in kids'[r] <==> c in kids[r] || c == x
  {
    if kids[r] != [] {
      var j: nat :| j < |kids[r]| && kids'[r] == InsertAfter(kids[r], j, x);
      assert Owned(l, kids, r);
      InsertAfterMembers(kids[r], j, x);
    }
  }

  lemma LinkedKeys(kids: Kids, kids': Kids, x: nat, r: nat)
    requires LinkedUnder(kids, kids', x, r)
    ensures kids'.Keys == kids.Keys && r in kids && r != NIL && x in kids && x != NIL && x != r
  {
  }

  lemma LinkedLists(kids: Kids, kids': Kids, x: nat, r: nat)
    requires LinkedUnder(kids, kids', x, r)
    ensures kids'.Keys == kids.Keys && r in kids
    ensures forall q :: q in kids && q != NIL && q != r ==> kids'[q] == kids[q]
  {
  }

  lemma LinkedRanked(l: Links, m: Links, kids: Kids, kids': Kids, rank: map<nat, nat>, top: nat, x: nat, r: nat, n: nat)
    requires Keyed(l, kids) && AllOwned(l, kids) && Keyed(m, kids') && Ranked(kids, rank, top)
    requires LinkedUnder(kids, kids', x, r) && x !in kids[r] && l.At(r).sup == NIL
    requires n > rank[x] && n >= rank[r]
    ensures Ranked(kids', rank[r := n], if n > top then n else top)
  {
    LinkedMembers(l, kids, kids', x, r);
    LinkedKeys(kids, kids', x, r);
    hide LinkedUnder, Owned, AllOwned;
    var rank' := rank[r := n];
    forall p, c | p in kids' && p != NIL && c in kids'[p]
      ensures c in rank' && rank'[c] < rank'[p]
    {
      assert c in kids[p] || (p == r && c == x);
    }
  }

  lemma LinkedSpread(l: Links, m: Links, kids: Kids, kids': Kids, ldeg: map<nat, nat>, x: nat, r: nat)
    requires Keyed(l, kids) && AllOwned(l, kids) && ldeg.Keys == kids.Keys - {NIL} && AllSpread(l, kids, ldeg)
    requires LinkedUnder(kids, kids', x, r) && Keyed(m, kids') && AllOwned(m, kids') && l.At(x).sup == NIL
    ensures AllSpread(m, kids', ldeg[x := |kids[r]|])
  {
    var ldeg' := ldeg[x := |kids[r]|];
    forall q | q in kids' && q != NIL
      ensures Owned(m, kids', q) && Spread(Degrees(kids'[q], ldeg'))
    {
      assert Owned(m, kids', q) && Owned(l, kids, q);
      assert Spread(Degrees(kids[q], ldeg));
      assert Degrees(kids[q], ldeg') == Degrees(kids[q], ldeg);
      if q == r {
        LinkedSpreadAt(kids[r], kids'[r], ldeg', x);
      }
    }
  }

  lemma LinkedSpreadAt(s: seq<nat>, t: seq<nat>, ldeg: map<nat, nat>, x: nat)
    requires forall c :: c in s ==> c in ldeg
    requires forall c :: c in t ==> c in ldeg
    requires x in ldeg && ldeg[x] == |s| && Spread(Degrees(s, ldeg))
    requires if s == [] then t == [x] else exists j: nat :: j < |s| && t == InsertAfter(s, j, x)
    ensures Spread(Degrees(t, ldeg))
  {
    if s == [] {
      assert Degrees(t, ldeg) == [0];
      SpreadOne();
    } else {
      var j: nat :| j < |s| && t == InsertAfter(s, j, x);
      assert Degrees(t, ldeg) == InsertAfter(Degrees(s, ldeg), j, |s|);
      SpreadInsert(Degrees(s, ldeg), j);
    }
  }

  lemma LinkedKept(l: Links, m: Links, kids: Kids, kids': Kids, ldeg: map<nat, nat>, x: nat, r: nat)
    requires Keyed(l, kids) && AllOwned(l, kids) && ldeg.Keys == kids.Keys - {NIL} && AllKept(l, kids, ldeg, {})
    requires LinkedUnder(kids, kids', x, r) && Keyed(m, kids') && Adopted(l, m, kids, x, r)
    requires l.At(r).sup == NIL && |kids[x]| == |kids[r]|
    ensures AllKept(m, kids', ldeg[x := |kids[r]|], {})
  {
    forall c | c in ldeg[x := |kids[r]|] && c !in {} && m.At(c).sup != NIL
      ensures Kept(m, kids', ldeg[x := |kids[r]|], c)
    {
      assert c == x || Kept(l, kids, ldeg, c);
    }
  }

  lemma LinkedCounts(l: Links, m: Links, kids: Kids, kids': Kids, x: nat, r: nat)
    requires Keyed(l, kids) && AllOwned(l, kids) && AllCounted(l, kids, {})
    requires LinkedUnder(kids, kids', x, r) && Keyed(m, kids') && Adopted(l, m, kids, x, r) && x !in kids[r]
    ensures AllCounted(m, kids', {})
  {
    hide LinkedUnder, AllOwned, Adopted, Counted;
    LinkedMembers(l, kids, kids', x, r);
    LinkedLists(kids, kids', x, r);
    forall c | c in kids' && c != NIL && c !in {}
      ensures Counted(m, kids', c)
    {
      assert Counted(l, kids, c);
      LinkedCountAt(l, m, kids, kids', x, r, c);
    }
  }

  lemma LinkedCountAt(l: Links, m: Links, kids: Kids, kids': Kids, x: nat, r: nat, c: nat)
    requires Keyed(l, kids) && Keyed(m, kids') && r in kids && r in kids' && Adopted(l, m, kids, x, r)
    requires c in kids && c in kids' && c != NIL && Counted(l, kids, c)
    requires if c != r then kids'[c] == kids[c]
             else |kids'[r]| == |kids[r]| + 1 && forall y :: y in kids'[r] <==> y in kids[r] || y == x
    ensures Counted(m, kids', c)
  {
  }

  lemma LinkedInv(l: Links, m: Links, kids: Kids, kids': Kids, rank: map<nat, nat>, top: nat, ldeg: map<nat, nat>, x: nat, r: nat, n: nat)
    requires Inv(l, kids, rank, top, ldeg, {}, {})
    requires LinkedUnder(kids, kids', x, r) && l.At(x).sup == NIL && l.At(r).sup == NIL && |kids[x]| == |kids[r]|
    requires Adopted(l, m, kids, x, r) && Shape(m, kids', {})
    requires n > rank[x] && n >= rank[r]
    ensures Inv(m, kids', rank[r := n], if n > top then n else top, ldeg[x := |kids[r]|], {}, {})
    ensures forall p, c :: p in kids' && p != NIL && c in kids'[p] ==> c in kids[p] || (p == r && c == x)
  {
    hide AllOwned, AllRings, AllPlaced, LooseOk, Ranked, AllSpread, AllKept, AllCounted, LinkedUnder, Adopted;
    LinkedKeys(kids, kids', x, r);
    LinkedLists(kids, kids', x, r);
    NotAChild(l, kids, r, x);
    LinkedMembers(l, kids, kids', x, r);
    LinkedRanked(l, m, kids, kids', rank, top, x, r, n);
    LinkedSpread(l, m, kids, kids', ldeg, x, r);
    LinkedKept(l, m, kids, kids', ldeg, x, r);
    LinkedCounts(l, m, kids, kids', x, r);
  }

  // A root is in no list of children.
  lemma NotAChild(l: Links, kids: Kids, r: nat, x: nat)
    requires Keyed(l, kids) && AllOwned(l, kids) && r in kids && r != NIL && x in kids && x != NIL && l.At(x).sup == NIL
    ensures x !in kids[r]
  {
    assert Owned(l, kids, r);
  }

  // ---- a new node

  ghost predicate EnteredKids(kids: Kids, kids': Kids, x: nat) {
    && x !in kids && x != NIL && kids'.Keys == kids.Keys + {x} && kids'[x] == []
    && forall q :: q in kids && q != NIL ==> kids'[q] == kids[q]
  }

  lemma EnteredSpread(l: Links, m: Links, kids: Kids, kids': Kids, ldeg: map<nat, nat>, x: nat)
    requires Keyed(l, kids) && AllOwned(l, kids) && ldeg.Keys == kids.Keys - {NIL} && AllSpread(l, kids, ldeg)
    requires EnteredKids(kids, kids', x) && Keyed(m, kids') && AllOwned(m, kids')
    ensures AllSpread(m, kids', ldeg[x := 0])
  {
    var ldeg' := ldeg[x := 0];
    forall q | q in kids' && q != NIL
      ensures Owned(m, kids', q) && Spread(Degrees(kids'[q], ldeg'))
    {
      assert Owned(m, kids', q);
      if q == x {
        assert Degrees([], ldeg') == [];
      } else {
        assert Owned(l, kids, q) && Spread(Degrees(kids[q], ldeg));
        assert Degrees(kids[q], ldeg') == Degrees(kids[q], ldeg);
      }
    }
  }

  ghost predicate EnteredFields(l: Links, m: Links, kids: Kids, kids': Kids, x: nat)
    requires Keyed(l, kids) && EnteredKids(kids, kids', x) && Keyed(m, kids')
  {
    && (forall y :: y in kids && y != NIL ==> SameCounts(l.At(y), m.At(y)) && m.At(y).sup == l.At(y).sup)
    && m.At(x).sup == NIL && m.At(x).sub == NIL && m.At(x).nSub == 0
  }

  lemma EnteredKept(l: Links, m: Links, kids: Kids, kids': Kids, ldeg: map<nat, nat>, x: nat)
    requires Keyed(l, kids) && EnteredKids(kids, kids', x) && Keyed(m, kids') && EnteredFields(l, m, kids, kids', x)
    requires ldeg.Keys == kids.Keys - {NIL} && AllKept(l, kids, ldeg, {}) && AllCounted(l, kids, {})
    ensures AllKept(m, kids', ldeg[x := 0], {}) && AllCounted(m, kids', {})
  {
    forall c | c in ldeg[x := 0] && c !in {} && m.At(c).sup != NIL
      ensures Kept(m, kids', ldeg[x := 0], c)
    {
      assert Kept(l, kids, ldeg, c);
    }
    forall c | c in kids' && c != NIL && c !in {}
      ensures Counted(m, kids', c)
    {
      assert c == x || Counted(l, kids, c);
    }
  }

  lemma EnteredRanked(l: Links, m: Links, kids: Kids, kids': Kids, rank: map<nat, nat>, top: nat, x: nat)
    requires Keyed(l, kids) && EnteredKids(kids, kids', x) && Keyed(m, kids') && Ranked(kids, rank, top)
    requires AllOwned(l, kids)
    ensures Ranked(kids', rank[x := 0], top) && EdgesWithin(kids', kids)
  {
    forall p, c | p in kids' && p != NIL && c in kids'[p]
      ensures p in kids && c in kids[p] && c in rank && rank[c] < rank[p] && c != x && p != x
    {
      assert p != x;
      assert Owned(l, kids, p);
    }
  }

  lemma EnteredInv(l: Links, m: Links, kids: Kids, kids': Kids, rank: map<nat, nat>, top: nat, ldeg: map<nat, nat>, x: nat)
    requires Inv(l, kids, rank, top, ldeg, {}, {}) && EnteredKids(kids, kids', x) && Shape(m, kids', {})
    requires EnteredFields(l, m, kids, kids', x)
    ensures Inv(m, kids', rank[x := 0], top, ldeg[x := 0], {}, {})
    ensures EdgesWithin(kids', kids)
  {
    EnteredRanked(l, m, kids, kids', rank, top, x);
    EnteredSpread(l, m, kids, kids', ldeg, x);
    EnteredKept(l, m, kids, kids', ldeg, x);
  }
}

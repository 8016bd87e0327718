// Marks of roots.  The comment on the node's mark says that roots have none; here
// is exactly which deletions break that, and that nothing else does.
module FibMarks {
  import opened Basics
  import opened FibLinks
  import opened FibShape
  import opened FibDegree
  import opened FibInvariant
  import opened FibLinking

  ghost predicate RootsUnmarked(nodes: seq<FibNode>, live: set<nat>) {
    forall y :: y in live && y < |nodes| && nodes[y].sup == NIL ==> !nodes[y].isMarked
  }

  // No child of x is marked, and its parent, if any, is neither marked nor a root.
  ghost predicate SafeToDelete(l: Links, live: set<nat>, x: nat)
    requires x < |l.nodes|
  {
    && (forall c :: c in live && c < |l.nodes| && l.nodes[c].sup == x ==> !l.nodes[c].isMarked)
    && var p := l.nodes[x].sup;
       p == NIL || (p < |l.nodes| && !l.nodes[p].isMarked && l.nodes[p].sup != NIL)
  }

  // ---- what accounting for a lost child, and the cuts that follow, do to marks

  // Roots stay roots and marks stay.
  ghost predicate MoreMarked(l: Links, m: Links) {
    && |m.nodes| == |l.nodes|
    && (forall y: nat :: y < |l.nodes| && l.nodes[y].sup == NIL ==> m.nodes[y].sup == NIL)
    && (forall y: nat :: y < |l.nodes| && l.nodes[y].isMarked ==> m.nodes[y].isMarked)
  }

  // In m the parents of a lost child of p have been adjusted.
  ghost predicate Adjusted(l: Links, m: Links, p: nat) {
    && MoreMarked(l, m) && p < |l.nodes| && m.nodes[p].isMarked
    && if l.nodes[p].isMarked || l.nodes[p].sup == NIL then m.nodes[p].sup == NIL
       else forall y: nat :: y < |l.nodes| ==>
              m.nodes[y].sup == l.nodes[y].sup && (y != p ==> m.nodes[y].isMarked == l.nodes[y].isMarked)
  }

  // On the way, before q is adjusted.
  ghost predicate Adjusting(l: Links, m: Links, p: nat, q: nat) {
    p < |l.nodes| && if q == p && m == l then true
                     else MoreMarked(l, m) && l.nodes[p].isMarked && m.nodes[p].isMarked && m.nodes[p].sup == NIL
  }

  lemma AdjustStop(l: Links, m: Links, p: nat, q: nat, ni: nat)
    requires Adjusting(l, m, p, q) && q < |m.nodes| <= ROOT && m.nodes[q].nSub > 0
    requires !m.nodes[q].isMarked || m.nodes[q].sup == NIL
    ensures Adjusted(l, m.Put(q, Settled(m.nodes[q], ni)), p)
  {
  }

  lemma AdjustOn(l: Links, m: Links, p: nat, q: nat, ni: nat, m': Links, q': nat)
    requires Adjusting(l, m, p, q) && q < |m.nodes| <= ROOT && m.nodes[q].nSub > 0 && m.nodes[q].isMarked
    requires MovedToRoot(m.Put(q, Settled(m.nodes[q], ni)), m', q)
    ensures Adjusting(l, m', p, q')
  {
    assert MoreMarked(m, m');
  }

  // ---- the operations

  lemma ChildAt(l: Links, kids: Kids, x: nat, c: nat)
    requires Shape(l, kids, {}) && x in kids && x != NIL && c in kids && c != NIL
    ensures c < |l.nodes| && l.nodes[c].sup in kids && (c in kids[x] <==> l.nodes[c].sup == x)
  {
    hide AllRings, Ring, LooseOk, RingOf;
    assert Placed(l, kids, c) && Owned(l, kids, x);
  }

  lemma ChildrenOf(l: Links, kids: Kids, rank: map<nat, nat>, top: nat, x: nat)
    requires Shape(l, kids, {}) && Ranked(kids, rank, top) && x in kids && x != NIL
    ensures forall c :: c in kids && c != NIL ==> c < |l.nodes| && (c in kids[x] <==> l.nodes[c].sup == x)
    ensures var p := l.nodes[x].sup; p in kids && p != x && p !in kids[x] && (p != NIL ==> p < |l.nodes|)
  {
    hide Shape;
    forall c | c in kids && c != NIL
      ensures c < |l.nodes| && l.nodes[c].sup in kids && (c in kids[x] <==> l.nodes[c].sup == x)
    {
      ChildAt(l, kids, x, c);
    }
    var p := l.nodes[x].sup;
    if p == NIL {
      NoNilChild(l, kids, x);
    } else {
      assert x in kids && p in kids;
      ChildAt(l, kids, p, x);
      assert x in kids[p] && rank[x] < rank[p];
    }
  }

  lemma NoNilChild(l: Links, kids: Kids, x: nat)
    requires Shape(l, kids, {}) && x in kids
    ensures NIL !in kids[x]
  {
    hide AllRings, Ring, LooseOk, RingOf;
    assert Owned(l, kids, x);
  }

  // If no root is marked, none is after x was deleted exactly when it was safe.
  lemma DelMarks(l: Links, m: Links, m': Links, kids: Kids, rank: map<nat, nat>, top: nat, x: nat)
    requires Shape(l, kids, {}) && Ranked(kids, rank, top) && x in kids && x != NIL && x < |l.nodes|
    requires Orphaned(l, m, kids, x) && if l.nodes[x].sup == NIL then m' == m else Adjusted(m, m', l.nodes[x].sup)
    requires RootsUnmarked(l.nodes, kids.Keys - {NIL})
    ensures RootsUnmarked(m'.nodes, kids.Keys - {NIL} - {x}) <==> SafeToDelete(l, kids.Keys - {NIL}, x)
  {
    hide Shape, Ranked;
    ChildrenOf(l, kids, rank, top, x);
    var live, p := kids.Keys - {NIL}, l.nodes[x].sup;
    if SafeToDelete(l, live, x) {
      forall y | y in live - {x} && m'.nodes[y].sup == NIL
        ensures !m'.nodes[y].isMarked
      {
        assert l.nodes[y].sup == x || l.nodes[y].sup == NIL;
      }
    } else if p != NIL && (l.nodes[p].isMarked || l.nodes[p].sup == NIL) {
      assert p in live - {x} && m'.nodes[p].sup == NIL && m'.nodes[p].isMarked;
    } else {
      var c :| c in live && c < |l.nodes| && l.nodes[c].sup == x && l.nodes[c].isMarked;
      assert c in live - {x} && m'.nodes[c].sup == NIL && m'.nodes[c].isMarked;
    }
  }

  // A new root has no mark, and the marks of others stay.
  lemma AddMarks(l: Links, k: Links, live: set<nat>, x: nat)
    requires |l.nodes| <= |k.nodes| <= ROOT && x < |k.nodes| && k.Has(k.root.next) && !k.nodes[x].isMarked
    requires forall y :: y in live ==> y < |l.nodes|
    requires forall y :: 0 <= y < |l.nodes| && y != x ==> k.nodes[y] == l.nodes[y]
    requires x !in live
    ensures RootsUnmarked(k.LinkAfter(ROOT, x).nodes, live + {x}) <==> RootsUnmarked(l.nodes, live)
  {
    LinkAfterFields(k, ROOT, x);
  }

  // A root put under another loses its mark; the other gets none.
  lemma LinkMarks(l: Links, k: Links, live: set<nat>, x: nat, r: nat)
    requires Relinked(l, k) && CanAdopt(k, x, r) && r in live && RootsUnmarked(l.nodes, live) && l.nodes[r].sup == NIL
    ensures RootsUnmarked(AdoptUnder(k, x, r).nodes, live)
  {
    hide AdoptUnder;
    AdoptedFields(k, x, r);
  }
}

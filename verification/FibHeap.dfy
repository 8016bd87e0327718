// Fibonacci heap over element indices.  The keys stay with the owner of the
// elements, who hands Min a comparison of element indices.
module FibHeaps {
  import opened Basics
  import opened FibLinks
  import opened FibShape
  import opened FibDegree
  import opened FibInvariant
  import opened FibLinking
  import opened FibMarks
  import FibScan

  type Ordering = (nat, nat) -> int

  // What Min needs of a comparison to find a least element of s: signs that are
  // opposite one way and the other, and transitive.
  ghost predicate TotalPreorder(cmp: Ordering, s: set<nat>) {
    && (forall i, j :: i in s && j in s && cmp(i, j) >= 0 ==> cmp(j, i) <= 0)
    && (forall i, j, k :: i in s && j in s && k in s && cmp(i, j) <= 0 && cmp(j, k) <= 0 ==> cmp(i, k) <= 0)
  }

  ghost predicate EdgesOrdered(kids: Kids, cmp: Ordering) {
    forall p, c :: p in kids && p != NIL && c in kids[p] ==> cmp(p, c) <= 0
  }

  ghost predicate IsLeast(cmp: Ordering, m: nat, s: set<nat>) {
    m in s && forall y :: y in s ==> cmp(m, y) <= 0
  }

  // Climbing from y ends at a root that is no greater.
  lemma {:induction false} RootNoGreater(l: Links, kids: Kids, rank: map<nat, nat>, top: nat, cmp: Ordering, y: nat) returns (r: nat)
    requires Shape(l, kids, {}) && Ranked(kids, rank, top) && EdgesOrdered(kids, cmp)
    requires TotalPreorder(cmp, kids.Keys - {NIL})
    requires y in kids && y != NIL
    ensures r in kids[NIL] && cmp(r, y) <= 0
    decreases top - rank[y]
  {
    assert Placed(l, kids, y);
    var s := l.At(y).sup;
    if s == NIL {
      r := y;
    } else {
      r := RootNoGreater(l, kids, rank, top, cmp, s);
      assert Owned(l, kids, NIL);
      assert cmp(s, y) <= 0;
    }
  }

  lemma LeastRootIsLeast(l: Links, kids: Kids, rank: map<nat, nat>, top: nat, cmp: Ordering, m: nat)
    requires Shape(l, kids, {}) && Ranked(kids, rank, top) && EdgesOrdered(kids, cmp)
    requires TotalPreorder(cmp, kids.Keys - {NIL})
    requires m in kids[NIL] && forall r :: r in kids[NIL] ==> cmp(m, r) <= 0
    ensures IsLeast(cmp, m, kids.Keys - {NIL})
  {
    assert Owned(l, kids, NIL);
    forall y | y in kids.Keys - {NIL}
      ensures cmp(m, y) <= 0
    {
      var r := RootNoGreater(l, kids, rank, top, cmp, y);
    }
  }

  lemma LiveHasRoot(l: Links, kids: Kids, rank: map<nat, nat>, top: nat)
    requires Shape(l, kids, {}) && Ranked(kids, rank, top)
    ensures kids[NIL] == [] <==> kids.Keys - {NIL} == {}
  {
    assert Owned(l, kids, NIL);
    assert kids[NIL] != [] ==> kids[NIL][0] in kids.Keys - {NIL};
    if kids.Keys - {NIL} != {} {
      var y :| y in kids.Keys - {NIL};
      ClimbToRoot(l, kids, rank, top, y);
    }
  }

  lemma {:induction false} ClimbToRoot(l: Links, kids: Kids, rank: map<nat, nat>, top: nat, y: nat)
    requires Shape(l, kids, {}) && Ranked(kids, rank, top) && y in kids && y != NIL
    ensures kids[NIL] != []
    decreases top - rank[y]
  {
    assert Placed(l, kids, y);
    if l.At(y).sup != NIL {
      ClimbToRoot(l, kids, rank, top, l.At(y).sup);
    }
  }

  lemma RotateRing(l: Links, s: seq<nat>, b: nat)
    requires Ring(l, s) && Distinct(s) && b < |s|
    ensures Ring(l, s[b..] + s[..b]) && Distinct(s[b..] + s[..b])
    ensures forall y :: y in s[b..] + s[..b] <==> y in s
  {
    var t, n := s[b..] + s[..b], |s|;
    forall k {:trigger Succ(k, |t|)} | 0 <= k < |t|
      ensures Linked(l, t[k], t[Succ(k, |t|)])
    {
      var k0 := if k + b < n then k + b else k + b - n;
      assert t[k] == s[k0];
      assert Linked(l, s[k0], s[Succ(k0, n)]);
    }
    assert s == s[..b] + s[b..];
  }

  lemma EmptyInv(l: Links)
    requires l.nodes == [] && l.root.next == ROOT && l.root.prev == ROOT
    ensures Inv(l, map[NIL := []], map[], 0, map[], {}, {})
  {
    var kids: Kids := map[NIL := []];
    assert RingOf(kids, NIL) == [ROOT];
    forall p | p in kids
      ensures Owned(l, kids, p) && Ring(l, RingOf(kids, p))
    {
    }
  }

  lemma InvKeyed(l: Links, kids: Kids, rank: map<nat, nat>, top: nat, ldeg: map<nat, nat>, e: set<nat>)
    requires Inv(l, kids, rank, top, ldeg, e, e)
    ensures Keyed(l, kids)
  {
  }

  lemma EdgesWithinSelf(kids: Kids)
    ensures EdgesWithin(kids, kids)
  {
  }

  lemma EdgesWithinTrans(kids2: Kids, kids1: Kids, kids: Kids)
    requires EdgesWithin(kids2, kids1) && EdgesWithin(kids1, kids)
    ensures EdgesWithin(kids2, kids)
  {
  }

  lemma EdgesAvoidOrdered(kids: Kids, kids': Kids, x: nat)
    requires EdgesAvoid(kids', kids, x)
    ensures forall cmp: Ordering ::
      (forall p, c :: p in kids && p != NIL && p != x && c in kids[p] && c != x ==> cmp(p, c) <= 0) ==> EdgesOrdered(kids', cmp)
  {
  }

  lemma EdgesWithinOrdered(kids: Kids, kids': Kids)
    requires EdgesWithin(kids', kids)
    ensures forall cmp: Ordering :: EdgesOrdered(kids, cmp) ==> EdgesOrdered(kids', cmp)
  {
  }

  // Fields of a node that has just been entered.
  predicate IsFresh(n: FibNode) {
    n.sup == NIL && n.sub == NIL && n.nSub == 0 && !n.isMarked
  }

  lemma AddInv(l0: Links, l1: Links, kids: Kids, rank: map<nat, nat>, top: nat, ldeg: map<nat, nat>, x: nat)
    requires Inv(l0, kids, rank, top, ldeg, {}, {}) && x !in kids
    requires x < |l1.nodes| && |l0.nodes| <= |l1.nodes| <= ROOT && l1.root == l0.root
    requires forall y :: 0 <= y < |l0.nodes| && y != x ==> l1.nodes[y] == l0.nodes[y]
    requires IsFresh(l1.nodes[x])
    ensures l1.Has(l1.root.next)
    ensures Inv(l1.LinkAfter(ROOT, x), kids[x := []][NIL := [x] + kids[NIL]], rank[x := 0], top, ldeg[x := 0], {}, {})
    ensures EdgesWithin(kids[x := []][NIL := [x] + kids[NIL]], kids)
  {
    hide AllOwned, AllRings, AllPlaced, LooseOk, Ranked, AllSpread, AllKept, AllCounted;
    Enter(l0, l1, kids, x);
    RootAgain(l1, kids[x := []], {x}, x);
    assert l1.Put(x, l1.At(x).(sup := NIL)) == l1;
    assert {x} - {x} == {};
    var m := l1.LinkAfter(ROOT, x);
    assert MovedToRoot(l1, m, x);
    var kids' := kids[x := []][NIL := [x] + kids[NIL]];
    EnteredInv(l0, m, kids, kids', rank, top, ldeg, x);
  }

  ghost function Members(s: seq<nat>): set<nat> {
    set c | c in s
  }

  lemma MembersStep(t: seq<nat>, k: nat)
    requires k < |t| && Distinct(t)
    ensures t[k] in Members(t[k..]) && Members(t[k..]) - {t[k]} == Members(t[k + 1..])
    ensures forall y :: y in t[..k + 1] <==> y in t[..k] || y == t[k]
  {
    assert t[k..] == [t[k]] + t[k + 1..];
    assert t[..k + 1] == t[..k] + [t[k]];
  }

  // t lists the children of x; the first k of them have been made roots.
  ghost predicate CutProgress(l0: Links, kids0: Kids, l: Links, kids: Kids, x: nat, t: seq<nat>, k: nat) {
    && k <= |t| && Distinct(t) && x in kids0 && (forall y :: y in t <==> y in kids0[x])
    && Shape(l, kids, Members(t[k..]))
    && kids.Keys == kids0.Keys - {x}
    && (forall q :: q in kids && q != NIL ==> kids[q] == kids0[q])
    && CutFields(l0, l, t[..k])
    && NextChain(l, t, k)
    && x < |l.nodes| && l.nodes[x].next == l0.nodes[x].next
  }

  // m is l with the nodes of s made roots and some nodes relinked.
  ghost predicate CutFields(l: Links, m: Links, s: seq<nat>) {
    && |m.nodes| == |l.nodes|
    && (forall y: nat :: y < |l.nodes| ==> SameCounts(l.nodes[y], m.nodes[y]))
    && (forall y: nat :: y < |l.nodes| ==> m.nodes[y].sup == if y in s then NIL else l.nodes[y].sup)
  }

  // From t[k] on, the next links still follow t around.
  ghost predicate NextChain(l: Links, t: seq<nat>, k: nat) {
    forall j :: k <= j < |t| ==> NextAt(l, t, j)
  }

  ghost predicate NextAt(l: Links, t: seq<nat>, j: int)
    requires 0 <= j < |t|
  {
    t[j] < |l.nodes| && l.nodes[t[j]].next == t[Succ(j, |t|)]
  }

  lemma RingChain(l: Links, s: seq<nat>, b: nat)
    requires Ring(l, s) && Distinct(s) && b < |s| && forall y :: y in s ==> y < |l.nodes| <= ROOT
    ensures var t := s[b..] + s[..b];
            Distinct(t) && NextChain(l, t, 0) && forall y :: y in t <==> y in s
  {
    var t := s[b..] + s[..b];
    RotateRing(l, s, b);
    forall j | 0 <= j < |t|
      ensures NextAt(l, t, j)
    {
      assert Linked(l, t[j], t[Succ(j, |t|)]);
      assert t[j] in t;
    }
  }

  lemma KidsChain(l: Links, kids: Kids, loose: set<nat>, x: nat, b: nat)
    requires Shape(l, kids, loose) && x in kids && x != NIL && b < |kids[x]|
    ensures var t := kids[x][b..] + kids[x][..b];
            Distinct(t) && NextChain(l, t, 0) && forall y :: y in t <==> y in kids[x]
  {
    assert Owned(l, kids, x) && Ring(l, RingOf(kids, x));
    RingChain(l, kids[x], b);
  }

  lemma CutStart(l: Links, kids: Kids, x: nat, b: nat) returns (t: seq<nat>)
    requires Shape(l, kids, {x}) && x in kids && x != NIL && b < |kids[x]|
    ensures t == kids[x][b..] + kids[x][..b]
    ensures CutProgress(l, kids, l, kids - {x}, x, t, 0)
  {
    hide AllOwned, AllRings, AllPlaced, LooseOk, NextChain, Ring;
    KidsChain(l, kids, {x}, x, b);
    t := kids[x][b..] + kids[x][..b];
    Shatter(l, kids, {x}, x);
    assert {x} - {x} + (set c | c in kids[x]) == Members(t[0..]);
    assert t[..0] == [];
  }

  lemma ChainStep(l: Links, t: seq<nat>, k: nat)
    requires Distinct(t) && k < |t| && NextChain(l, t, k)
    requires t[k] < |l.nodes| && |l.nodes| <= ROOT && l.Has(l.root.next)
    ensures NextChain(ToRoot(l, t[k]), t, k + 1)
  {
    var m := ToRoot(l, t[k]);
    forall j | k + 1 <= j < |t|
      ensures NextAt(m, t, j)
    {
      assert NextAt(l, t, j);
      assert t[j] != t[k];
    }
  }

  lemma CutStep(l0: Links, kids0: Kids, l: Links, kids: Kids, x: nat, t: seq<nat>, k: nat)
    requires CutProgress(l0, kids0, l, kids, x, t, k) && k < |t|
    ensures NIL in kids && t[k] < |l.nodes| && |l.nodes| <= ROOT && l.Has(l.root.next)
    ensures CutProgress(l0, kids0, ToRoot(l, t[k]), kids[NIL := [t[k]] + kids[NIL]], x, t, k + 1)
  {
    hide AllOwned, AllRings, AllPlaced, LooseOk, NextChain;
    MembersStep(t, k);
    RootAgain(l, kids, Members(t[k..]), t[k]);
    ChainStep(l, t, k);
  }

  lemma CutEnd(l0: Links, kids0: Kids, l: Links, kids: Kids, x: nat, t: seq<nat>)
    requires CutProgress(l0, kids0, l, kids, x, t, |t|)
    ensures Shape(l, kids, {}) && Orphaned(l0, l, kids0, x)
    ensures x < |l.nodes| == |l0.nodes| && l.nodes[x].next == l0.nodes[x].next
    ensures kids.Keys == kids0.Keys - {x} && forall q :: q in kids && q != NIL ==> kids[q] == kids0[q]
  {
    hide AllOwned, AllRings, AllPlaced, LooseOk, NextChain;
    assert Members(t[|t|..]) == {};
    assert t[..|t|] == t;
  }

  // The children of x in list order from its first child.
  lemma CutBegin(l: Links, kids: Kids, x: nat) returns (t: seq<nat>)
    requires Shape(l, kids, {x}) && x in kids && x != NIL && Counted(l, kids, x)
    ensures CutProgress(l, kids, l, kids - {x}, x, t, 0)
    ensures l.At(x).sub == NIL <==> t == []
    ensures t == [] ==> Shape(l, kids - {x}, {}) && Orphaned(l, l, kids, x)
    ensures t != [] ==> t[0] == l.At(x).sub
  {
    SubIsNil(l, kids, {x}, x);
    hide AllOwned, AllRings, AllPlaced, LooseOk, CutProgress;
    if kids[x] != [] {
      var b := MemberAt(kids[x], l.At(x).sub);
      t := CutStart(l, kids, x, b);
    } else {
      t := [];
      Shatter(l, kids, {x}, x);
      assert {x} - {x} + (set c | c in kids[x]) == {};
      NoneToCut(l, kids, x);
    }
  }

  lemma NoneToCut(l: Links, kids: Kids, x: nat)
    requires x in kids && kids[x] == [] && Shape(l, kids - {x}, {}) && x < |l.nodes|
    ensures CutProgress(l, kids, l, kids - {x}, x, [], 0)
  {
    hide AllOwned, AllRings, AllPlaced, LooseOk;
    var t: seq<nat> := [];
    assert Members(t[0..]) == {};
  }

  lemma CutProgressNext(l0: Links, kids0: Kids, l: Links, kids: Kids, x: nat, t: seq<nat>, k: nat)
    requires CutProgress(l0, kids0, l, kids, x, t, k) && k < |t|
    ensures t[k] < |l.nodes| && l.nodes[t[k]].next == t[Succ(k, |t|)]
    ensures t[Succ(k, |t|)] == t[0] <==> k + 1 == |t|
  {
    assert NextAt(l, t, k);
  }

  lemma SubIsNil(l: Links, kids: Kids, loose: set<nat>, x: nat)
    requires Shape(l, kids, loose) && x in kids && x != NIL && Counted(l, kids, x)
    ensures l.At(x).sub == NIL <==> kids[x] == []
  {
    assert Owned(l, kids, x);
  }

  // Node p still has to account for the loss of a child; ni is one it has left.
  ghost predicate Debt(l: Links, kids: Kids, rank: map<nat, nat>, top: nat, ldeg: map<nat, nat>, p: nat, ni: nat) {
    Inv(l, kids, rank, top, ldeg, {p}, {p}) && Owes(l, kids, ldeg, p, ni)
  }

  // Every parent link of kids' is one of kids and touches x at neither end.
  ghost predicate EdgesAvoid(kids': Kids, kids: Kids, x: nat) {
    forall p, c :: p in kids' && p != NIL && c in kids'[p] ==> p in kids && c in kids[p] && p != x && c != x
  }

  lemma EdgesAvoidWithin(kids2: Kids, kids1: Kids, kids: Kids, x: nat)
    requires EdgesWithin(kids2, kids1) && EdgesAvoid(kids1, kids, x)
    ensures EdgesAvoid(kids2, kids, x)
  {
  }

  // Where a live node stands in the list of its parent.
  lemma Locate(l: Links, kids: Kids, rank: map<nat, nat>, top: nat, x: nat) returns (i: nat)
    requires Shape(l, kids, {}) && Ranked(kids, rank, top) && x in kids && x != NIL
    ensures x < |l.nodes| <= ROOT && NIL in kids && x in rank
    ensures var p := l.At(x).sup;
            && p in kids && p != x && i < |kids[p]| && kids[p][i] == x
            && (p != NIL ==> p in rank && rank[x] < rank[p] <= top)
  {
    assert Placed(l, kids, x);
    i := MemberAt(kids[l.At(x).sup], x);
  }

  lemma UnlinkKeepsNext(l: Links, x: nat)
    requires x < |l.nodes| <= ROOT && l.Has(l.At(x).prev) && l.Has(l.At(x).next)
    ensures Relinked(l, l.Unlink(x)) && l.Unlink(x).nodes[x].next == l.nodes[x].next
  {
  }

  lemma DelBegin(l: Links, kids: Kids, rank: map<nat, nat>, top: nat, ldeg: map<nat, nat>, x: nat) returns (i: nat)
    requires Inv(l, kids, rank, top, ldeg, {}, {}) && x in kids && x != NIL
    ensures x < |l.nodes| <= ROOT && l.Has(l.At(x).prev) && l.Has(l.At(x).next)
    ensures var p := l.At(x).sup; p in kids && p != x && i < |kids[p]| && kids[p][i] == x
    ensures var p := l.At(x).sup;
            Shape(l.Unlink(x), kids[p := Without(kids[p], i)], {x})
    ensures Counted(l.Unlink(x), kids[l.At(x).sup := Without(kids[l.At(x).sup], i)], x)
    ensures Relinked(l, l.Unlink(x)) && l.Unlink(x).nodes[x].next == l.nodes[x].next
  {
    hide AllOwned, AllRings, AllPlaced, LooseOk, Ranked, AllSpread, AllKept, Links.Unlink;
    i := Locate(l, kids, rank, top, x);
    DetachOne(l, kids, x, l.At(x).sup, i);
    UnlinkKeepsNext(l, x);
    assert Counted(l, kids, x);
  }

  // After the node has left and its children have been made roots.
  lemma DelMiddle(l: Links, l1: Links, m: Links, kids: Kids, kids1: Kids, kids2: Kids,
                  rank: map<nat, nat>, top: nat, ldeg: map<nat, nat>, x: nat, i: nat)
    requires Inv(l, kids, rank, top, ldeg, {}, {}) && x in kids && x != NIL && x < |l.nodes|
    requires var p := l.At(x).sup; p in kids && p != x && i < |kids[p]| && kids[p][i] == x && kids1 == kids[p := Without(kids[p], i)]
    requires Relinked(l, l1) && Orphaned(l1, m, kids1, x) && Shape(m, kids2, {})
    requires kids2.Keys == kids1.Keys - {x} && forall q :: q in kids2 && q != NIL ==> kids2[q] == kids1[q]
    ensures var p := l.At(x).sup;
            && (p == NIL ==> Inv(m, kids2, rank - {x}, top, ldeg - {x}, {}, {}))
            && EdgesAvoid(kids2, kids, x)
            && (p != NIL ==> Debt(m, kids2, rank - {x}, top, ldeg - {x}, p, l.At(x).next))
            && m.nodes[x].sup == p
    ensures Orphaned(l, m, kids, x) && Shape(l, kids, {}) && Ranked(kids, rank, top)
  {
    hide AllOwned, AllRings, AllPlaced, LooseOk, Ranked, AllSpread, AllKept, AllCounted;
    var p := l.At(x).sup;
    assert Orphaned(l, m, kids, x);
    assert Removed(kids, kids2, x, p, i);
    RemovedInv(l, m, kids, kids2, rank, top, ldeg, x, p, i);
    NotOwnChild(l, kids, x);
  }

  lemma NotOwnChild(l: Links, kids: Kids, x: nat)
    requires Keyed(l, kids) && AllOwned(l, kids) && x in kids && x != NIL && l.At(x).sup != x
    ensures x !in kids[x]
  {
    assert Owned(l, kids, x);
  }

  // A marked node that loses a further child is cut.
  lemma Cascade(l: Links, kids: Kids, rank: map<nat, nat>, top: nat, ldeg: map<nat, nat>, p: nat) returns (i: nat)
    requires Inv(l, kids, rank, top, ldeg, {p}, {}) && p in kids && p != NIL && l.At(p).sup != NIL
    ensures p < |l.nodes| <= ROOT && l.Has(l.At(p).prev) && l.Has(l.At(p).next)
    ensures |l.Unlink(p).nodes| == |l.nodes| && l.Unlink(p).Has(l.Unlink(p).root.next)
    ensures var s := l.At(p).sup;
            && s in kids && NIL in kids && i < |kids[s]| && p in rank && s in rank && rank[p] < rank[s] <= top
            && var m := ToRoot(l.Unlink(p), p);
               var kids' := CutKids(kids, s, i);
               && Inv(m, kids', rank, top, ldeg, {s}, {s}) && EdgesWithin(kids', kids)
               && Owes(m, kids', ldeg, s, l.At(p).next) && MovedToRoot(l, m, p)
  {
    hide AllOwned, AllRings, AllPlaced, LooseOk, AllSpread, AllKept, AllCounted, Ranked, Links.Unlink, ToRoot, EdgesWithin, Owes, MovedToRoot;
    i := Locate(l, kids, rank, top, p);
    var s := l.At(p).sup;
    CutShape(l, kids, p, s, i);
    CutInv(l, ToRoot(l.Unlink(p), p), kids, rank, top, ldeg, p, s, i, {p});
  }

  lemma DebtOf(l: Links, kids: Kids, rank: map<nat, nat>, top: nat, ldeg: map<nat, nat>, p: nat, ni: nat)
    requires Debt(l, kids, rank, top, ldeg, p, ni)
    ensures p < |l.nodes| <= ROOT && l.nodes[p].nSub > 0 && p in rank && rank[p] <= top
  {
  }

  lemma PayAndStop(l: Links, kids: Kids, rank: map<nat, nat>, top: nat, ldeg: map<nat, nat>, p: nat, ni: nat)
    requires Debt(l, kids, rank, top, ldeg, p, ni)
    requires p < |l.nodes| <= ROOT && l.nodes[p].nSub > 0 && (!l.nodes[p].isMarked || l.nodes[p].sup == NIL)
    ensures Inv(l.Put(p, Settled(l.nodes[p], ni)), kids, rank, top, ldeg, {}, {})
  {
    hide Inv;
    Settle(l, kids, rank, top, ldeg, p, ni);
  }

  lemma PayAndCut(l: Links, kids: Kids, rank: map<nat, nat>, top: nat, ldeg: map<nat, nat>, p: nat, ni: nat, k: Links) returns (i: nat)
    requires Debt(l, kids, rank, top, ldeg, p, ni)
    requires p < |l.nodes| <= ROOT && l.nodes[p].nSub > 0 && l.nodes[p].isMarked && l.nodes[p].sup != NIL
    requires k == l.Put(p, Settled(l.nodes[p], ni))
    ensures p < |k.nodes| == |l.nodes| && k.nodes[p].sup == l.nodes[p].sup
    ensures k.Has(k.At(p).prev) && k.Has(k.At(p).next)
    ensures |k.Unlink(p).nodes| == |k.nodes| && k.Unlink(p).Has(k.Unlink(p).root.next)
    ensures var s := k.At(p).sup;
            && s in kids && NIL in kids && i < |kids[s]| && p in rank && s in rank && rank[p] < rank[s] <= top
            && Debt(ToRoot(k.Unlink(p), p), CutKids(kids, s, i), rank, top, ldeg, s, k.At(p).next)
            && EdgesWithin(CutKids(kids, s, i), kids) && CutKids(kids, s, i).Keys == kids.Keys
    ensures MovedToRoot(k, ToRoot(k.Unlink(p), p), p)
  {
    hide Inv, Links.Unlink, ToRoot, EdgesWithin, MovedToRoot;
    Settle(l, kids, rank, top, ldeg, p, ni);
    i := Cascade(k, kids, rank, top, ldeg, p);
  }

  // The heap order after r, no greater than x, has been put above x.
  lemma LinkKeepsOrder(kids: Kids, kids': Kids, cmp: Ordering, x: nat, r: nat, i: nat)
    requires EdgesOrdered(kids, cmp) && LinkedKids(kids, kids', x, r, i) && cmp(r, x) <= 0
    ensures EdgesOrdered(kids', cmp)
  {
  }

  // ---- the scan of the root list, step by step

  lemma ScanBegin(l: Links, kids: Kids, rank: map<nat, nat>, top: nat, ldeg: map<nat, nat>, deg: seq<nat>)
    requires Inv(l, kids, rank, top, ldeg, {}, {}) && |deg| == MAX_N_SUB
    ensures Keyed(l, kids) && (l.root.next != ROOT ==> l.root.next < |l.nodes|)
    ensures var ri := l.root.next;
            var k := if ri == ROOT then 0 else 1;
            k <= |kids[NIL]| && FibScan.Scan(kids, deg, {}, ri, if ri == ROOT then 0 else l.nodes[ri].next, k)
  {
    hide AllOwned, AllRings, AllPlaced, LooseOk, Ranked, AllSpread, AllKept, AllCounted, FibScan.Table;
    FibScan.ScanStart(l, kids, deg);
  }

  lemma ScanHere(l: Links, kids: Kids, rank: map<nat, nat>, top: nat, ldeg: map<nat, nat>,
                 deg: seq<nat>, degValid: set<nat>, ri: nat, ni: nat, k: nat)
    requires Inv(l, kids, rank, top, ldeg, {}, {}) && FibScan.Scan(kids, deg, degValid, ri, ni, k) && ri != ROOT
    requires |kids.Keys - {NIL}| < FIB_34
    ensures ri in kids && ri != NIL && ri < |l.nodes| <= ROOT && l.Has(ni)
    ensures l.nodes[ri].nSub == |kids[ri]| < MAX_N_SUB == |deg|
  {
    hide AllOwned, AllRings, AllPlaced, LooseOk, Ranked, AllSpread, AllKept, FibScan.Table;
    FibScan.ScanFacts(l, kids, deg, degValid, ri, ni, k);
    DegreeBound(l, kids, rank, top, ldeg, ri);
    assert Counted(l, kids, ri);
    ScanTableSize(kids, deg, degValid, ri, ni, k);
  }

  lemma ScanTableSize(kids: Kids, deg: seq<nat>, degValid: set<nat>, ri: nat, ni: nat, k: nat)
    requires NIL in kids && FibScan.Scan(kids, deg, degValid, ri, ni, k)
    ensures |deg| == MAX_N_SUB
  {
  }

  lemma ScanOn(l: Links, kids: Kids, rank: map<nat, nat>, top: nat, ldeg: map<nat, nat>,
               deg: seq<nat>, degValid: set<nat>, ri: nat, ni: nat, k: nat)
    requires Inv(l, kids, rank, top, ldeg, {}, {}) && FibScan.Scan(kids, deg, degValid, ri, ni, k) && ri != ROOT
    requires ri in kids && |kids[ri]| < MAX_N_SUB && |deg| == MAX_N_SUB && |kids[ri]| !in degValid && l.Has(ni)
    ensures FibScan.Scan(kids, deg[|kids[ri]| := ri], degValid + {|kids[ri]|}, ni, l.At(ni).next, if ni == ROOT then k else k + 1)
    ensures (ni == ROOT <==> k == |kids[NIL]|) && k <= |kids[NIL]|
  {
    hide AllOwned, AllRings, AllPlaced, LooseOk, Ranked, AllSpread, AllKept, AllCounted, FibScan.Table;
    FibScan.ScanAdvance(l, kids, deg, degValid, ri, ni, k, |kids[ri]|);
  }

  lemma ScanPair(l: Links, kids: Kids, rank: map<nat, nat>, top: nat, ldeg: map<nat, nat>,
                 deg: seq<nat>, degValid: set<nat>, ri: nat, ni: nat, k: nat, x: nat, r: nat) returns (i: nat)
    requires Inv(l, kids, rank, top, ldeg, {}, {}) && FibScan.Scan(kids, deg, degValid, ri, ni, k) && ri != ROOT
    requires ri in kids && |kids[ri]| in degValid && |kids[ri]| < |deg|
    requires (x == ri && r == deg[|kids[ri]|]) || (r == ri && x == deg[|kids[ri]|])
    ensures x != r && i < k <= |kids[NIL]| && TwoRoots(kids, x, r, i)
  {
    var roots := kids[NIL];
    assert FibScan.Listed(kids, deg, |kids[ri]|);
    i :| 0 <= i < |roots[..k]| && roots[..k][i] == x;
    assert r in roots[..k];
  }

  lemma ScanLinked(l: Links, kids: Kids, kids': Kids, rank: map<nat, nat>, top: nat, ldeg: map<nat, nat>,
                   deg: seq<nat>, degValid: set<nat>, ri: nat, ni: nat, k: nat, x: nat, r: nat, i: nat)
    requires Inv(l, kids, rank, top, ldeg, {}, {}) && FibScan.Scan(kids, deg, degValid, ri, ni, k) && ri != ROOT
    requires ri in kids && |kids[ri]| in degValid && |kids[ri]| < |deg|
    requires (x == ri && r == deg[|kids[ri]|]) || (r == ri && x == deg[|kids[ri]|])
    requires x != r && i < k && LinkedKids(kids, kids', x, r, i)
    ensures k > 0 && NIL in kids' && FibScan.Scan(kids', deg, degValid - {|kids[ri]|}, r, ni, k - 1)
    ensures |kids'[NIL]| == |kids[NIL]| - 1
  {
    hide AllOwned, AllRings, AllPlaced, LooseOk, Ranked, AllSpread, AllKept, AllCounted, FibScan.Table;
    FibScan.ScanLink(l, kids, kids', deg, degValid, ri, ni, k, x, r, i);
  }

  // After the scan the table names every root.
  lemma ScanDone(l: Links, kids: Kids, rank: map<nat, nat>, top: nat, ldeg: map<nat, nat>,
                 deg: seq<nat>, degValid: set<nat>, ni: nat, k: nat)
    requires Inv(l, kids, rank, top, ldeg, {}, {}) && FibScan.Scan(kids, deg, degValid, ROOT, ni, k)
    ensures forall d :: d in degValid ==> d < |deg| && deg[d] in kids[NIL]
    ensures forall x :: x in kids[NIL] ==> x in kids && |kids[x]| in degValid && |kids[x]| < |deg| && deg[|kids[x]|] == x
  {
    hide AllRings, AllPlaced, LooseOk, Ranked, AllSpread, AllKept, AllCounted, FibScan.Table;
    FibScan.NotARoot(l, kids);
    FibScan.ScanEnd(kids, deg, degValid, ni, k);
  }

  lemma RootsLive(l: Links, kids: Kids, rank: map<nat, nat>, top: nat, ldeg: map<nat, nat>, x: nat, r: nat, i: nat)
    requires Inv(l, kids, rank, top, ldeg, {}, {}) && TwoRoots(kids, x, r, i)
    ensures x in kids.Keys - {NIL} && r in kids.Keys - {NIL}
  {
    assert Owned(l, kids, NIL);
  }

  lemma RootsExist(l: Links, kids: Kids, rank: map<nat, nat>, top: nat, ldeg: map<nat, nat>)
    requires Inv(l, kids, rank, top, ldeg, {}, {})
    ensures NIL in kids && NIL !in kids[NIL]
    ensures kids[NIL] == [] <==> kids.Keys - {NIL} == {}
  {
    FibScan.NotARoot(l, kids);
    LiveHasRoot(l, kids, rank, top);
  }

  // With m no greater than x, m is below everything x is below.
  lemma LeastSoFar(l: Links, kids: Kids, rank: map<nat, nat>, top: nat, ldeg: map<nat, nat>, cmp: Ordering, m: nat, x: nat)
    requires Inv(l, kids, rank, top, ldeg, {}, {}) && TotalPreorder(cmp, kids.Keys - {NIL})
    requires m in kids[NIL] && (x == NIL || (x in kids[NIL] && (cmp(m, x) < 0 || cmp(x, m) >= 0)))
    ensures cmp(m, m) <= 0
    ensures x != NIL ==> cmp(m, x) <= 0 && forall y :: y in kids[NIL] && cmp(x, y) <= 0 ==> cmp(m, y) <= 0
  {
    assert Owned(l, kids, NIL);
  }

  lemma FinalLeast(l: Links, kids: Kids, rank: map<nat, nat>, top: nat, ldeg: map<nat, nat>, cmp: Ordering, m: nat)
    requires Inv(l, kids, rank, top, ldeg, {}, {}) && EdgesOrdered(kids, cmp) && TotalPreorder(cmp, kids.Keys - {NIL})
    requires m != NIL ==> m in kids[NIL]
    requires forall x :: x in kids[NIL] ==> m != NIL && cmp(m, x) <= 0
    ensures m != NIL <==> kids.Keys - {NIL} != {}
    ensures m != NIL ==> IsLeast(cmp, m, kids.Keys - {NIL})
  {
    hide AllOwned, AllRings, AllPlaced, LooseOk, Ranked, AllSpread, AllKept, AllCounted, EdgesOrdered, TotalPreorder, IsLeast;
    LiveHasRoot(l, kids, rank, top);
    if kids[NIL] != [] {
      var r := kids[NIL][0];
      assert r in kids[NIL];
    }
    if m != NIL {
      LeastRootIsLeast(l, kids, rank, top, cmp, m);
    }
  }

  // NextSet takes the lowest set bit.
  lemma LowestExists(s: set<nat>) returns (m: nat)
    requires s != {}
    ensures m in s && forall d :: d in s ==> m <= d
  {
    m :| m in s;
    assert s == (s - {m}) + {m};
    if s - {m} != {} {
      var k := LowestExists(s - {m});
      if k < m {
        m := k;
      }
    }
  }

  // ---- marks

  lemma AdjustStart(l: Links, p: nat)
    requires p < |l.nodes|
    ensures Adjusting(l, l, p, p)
  {
  }

  lemma AddKeepsMarks(l0: Links, l1: Links, kids: Kids, rank: map<nat, nat>, top: nat, ldeg: map<nat, nat>, x: nat)
    requires Inv(l0, kids, rank, top, ldeg, {}, {}) && x !in kids
    requires x < |l1.nodes| && |l0.nodes| <= |l1.nodes| <= ROOT && l1.Has(l1.root.next) && IsFresh(l1.nodes[x])
    requires forall y :: 0 <= y < |l0.nodes| && y != x ==> l1.nodes[y] == l0.nodes[y]
    ensures RootsUnmarked(l1.LinkAfter(ROOT, x).nodes, kids.Keys - {NIL} + {x}) <==> RootsUnmarked(l0.nodes, kids.Keys - {NIL})
  {
    hide AllOwned, AllRings, AllPlaced, LooseOk, Ranked, AllSpread, AllKept, AllCounted, RootsUnmarked;
    AddMarks(l0, l1, kids.Keys - {NIL}, x);
  }

  lemma LinkKeepsMarks(l: Links, kids: Kids, rank: map<nat, nat>, top: nat, ldeg: map<nat, nat>, x: nat, r: nat, i: nat)
    requires Inv(l, kids, rank, top, ldeg, {}, {}) && TwoRoots(kids, x, r, i)
    requires x < |l.nodes| <= ROOT && l.Has(l.nodes[x].prev) && l.Has(l.nodes[x].next) && CanAdopt(l.Unlink(x), x, r)
    requires RootsUnmarked(l.nodes, kids.Keys - {NIL})
    ensures RootsUnmarked(AdoptUnder(l.Unlink(x), x, r).nodes, kids.Keys - {NIL})
  {
    hide AllRings, AllPlaced, LooseOk, Ranked, AllSpread, AllKept, AllCounted, RootsUnmarked, AdoptUnder, CanAdopt, Links.Unlink;
    RootFacts(l, kids, r);
    UnlinkRelinks(l, x);
    LinkMarks(l, l.Unlink(x), kids.Keys - {NIL}, x, r);
  }

  // Of two nodes whose degrees differ, if both are roots, one is below the other.
  lemma TwoNodes(l: Links, kids: Kids, rank: map<nat, nat>, top: nat, ldeg: map<nat, nat>) returns (p: nat)
    requires Inv(l, kids, rank, top, ldeg, {}, {}) && kids.Keys - {NIL} == {0, 1}
    requires DegreesDiffer(kids)
    ensures p in {0, 1} && |l.nodes| > 1 && l.nodes[p].sup == NIL && l.nodes[1 - p].sup == p
    ensures !SafeToDelete(l, {0, 1}, 1 - p)
  {
    hide AllOwned, AllRings, LooseOk, AllSpread, AllKept, AllCounted, Ranked;
    assert 0 in kids.Keys - {NIL} && 1 in kids.Keys - {NIL};
    assert 0 in kids && 1 in kids && Placed(l, kids, 0) && Placed(l, kids, 1);
    ParentAbove(l, kids, rank, top, 0);
    ParentAbove(l, kids, rank, top, 1);
    if l.nodes[0].sup == NIL && l.nodes[1].sup == NIL {
      var c := FirstChild(l, kids, if kids[0] != [] then 0 else 1);
      assert false;
    }
    p := if l.nodes[0].sup == NIL then 0 else 1;
  }

  lemma ParentAbove(l: Links, kids: Kids, rank: map<nat, nat>, top: nat, x: nat)
    requires Shape(l, kids, {}) && Ranked(kids, rank, top) && x in kids && x != NIL
    ensures x < |l.nodes| && l.nodes[x].sup in kids && x in kids[l.nodes[x].sup]
    ensures var p := l.nodes[x].sup; x in rank && (p != NIL ==> p in rank && rank[x] < rank[p] && p in kids.Keys - {NIL})
  {
    hide AllOwned, AllRings, LooseOk;
    assert Placed(l, kids, x);
  }

  lemma FirstChild(l: Links, kids: Kids, x: nat) returns (c: nat)
    requires Shape(l, kids, {}) && x in kids && x != NIL && kids[x] != []
    ensures c in kids.Keys - {NIL} && c < |l.nodes| && l.nodes[c].sup == x
  {
    hide AllRings, LooseOk, AllPlaced;
    assert Owned(l, kids, x);
    c := kids[x][0];
    assert c in kids[x];
  }

  // No two roots have as many children.
  ghost predicate DegreesDiffer(kids: Kids) {
    NIL in kids && forall x, y :: x in kids[NIL] && y in kids[NIL] && x in kids && y in kids && |kids[x]| == |kids[y]| ==> x == y
  }

  lemma TableDiffers(kids: Kids, deg: seq<nat>)
    requires NIL in kids && forall x :: x in kids[NIL] ==> x in kids && |kids[x]| < |deg| && deg[|kids[x]|] == x
    ensures DegreesDiffer(kids)
  {
  }

  lemma NoneDiffers()
    ensures DegreesDiffer(map[NIL := []])
  {
  }

  lemma DifferenceOrders(cmp: Ordering, s: set<nat>)
    requires forall i: nat, j: nat :: cmp(i, j) == i - j
    ensures TotalPreorder(cmp, s)
  {
  }

  const ZERO_NODE := FibNode(0, 0, 0, 0, 0, false)

  class FibHeap {
    var root: FibNode
    var nodes: seq<FibNode>

    // A least element found before, while it is known to be one.
    var minIndex: nat
    var minValid: bool

    // Lists by owner; heights; number of children when last linked.
    ghost var kids: Kids
    ghost var rank: map<nat, nat>
    ghost var top: nat
    ghost var ldeg: map<nat, nat>

    ghost function Store(): Links
      reads this
    {
      Links(root, nodes)
    }

    ghost function Live(): set<nat>
      reads this
    {
      kids.Keys - {NIL}
    }

    ghost predicate Valid()
      reads this
    {
      if |nodes| == 0 then
        kids == map[NIL := []] && rank == map[] && top == 0 && ldeg == map[] && !minValid
      else
        Inv(Store(), kids, rank, top, ldeg, {}, {}) && (minValid ==> minIndex in Live())
    }

    // Heap order, and the cached minimum is one, under the order cmp.
    ghost predicate Ordered(cmp: Ordering)
      reads this
    {
      EdgesOrdered(kids, cmp) && (minValid ==> IsLeast(cmp, minIndex, Live()))
    }

    // The same but for the place of x, whose key may have changed.
    ghost predicate OrderedExcept(cmp: Ordering, x: nat)
      reads this
    {
      && (forall p, c :: p in kids && p != NIL && p != x && c in kids[p] && c != x ==> cmp(p, c) <= 0)
      && (minValid && minIndex != x ==> IsLeast(cmp, minIndex, Live() - {x}))
    }

    // No root is marked.
    ghost predicate Unmarked()
      reads this
    {
      RootsUnmarked(nodes, Live())
    }

    // Deleting x leaves no mark on a root.
    ghost predicate SafeToDel(x: nat)
      requires x < |nodes|
      reads this
    {
      SafeToDelete(Store(), Live(), x)
    }

    constructor ()
      ensures Valid() && Live() == {} && !minValid && Unmarked() && kids == map[NIL := []]
      ensures forall cmp: Ordering :: Ordered(cmp)
    {
      root, nodes := ZERO_NODE, [];
      minIndex, minValid := 0, false;
      kids, rank, top, ldeg := map[NIL := []], map[], 0, map[];
    }

    function Node(ni: nat): FibNode
      requires Store().Has(ni)
      reads this
    {
      if ni == ROOT then root else nodes[ni]
    }

    method PutNode(ni: nat, n: FibNode)
      requires Store().Has(ni)
      modifies this`root, this`nodes
      ensures Store() == old(Store()).Put(ni, n)
    {
      if ni == ROOT {
        root := n;
      } else {
        nodes := nodes[ni := n];
      }
    }

    method LinkAfter(pi: nat, xi: nat)
      requires Store().Has(pi) && Store().Has(xi) && Store().Has(Node(pi).next)
      modifies this`root, this`nodes
      ensures Store() == old(Store()).LinkAfter(pi, xi)
      ensures |nodes| == |old(nodes)|
    {
      var ni := Node(pi).next;
      PutNode(pi, Node(pi).(next := xi));
      PutNode(xi, Node(xi).(prev := pi, next := ni));
      PutNode(ni, Node(ni).(prev := xi));
    }

    method AddRoot(xi: nat)
      requires Store().Has(xi) && Store().Has(root.next)
      modifies this`root, this`nodes
      ensures Store() == old(Store()).LinkAfter(ROOT, xi)
      ensures |nodes| == |old(nodes)|
    {
      LinkAfter(ROOT, xi);
    }

    // Node xi, held by no list, becomes a root.
    method MoveToRoot(xi: nat)
      requires xi < |nodes| <= ROOT && Store().Has(root.next)
      modifies this`root, this`nodes
      ensures Store() == ToRoot(old(Store()), xi)
      ensures |nodes| == |old(nodes)|
    {
      nodes := nodes[xi := nodes[xi].(sup := NIL)];
      AddRoot(xi);
    }

    method Unlink(xi: nat)
      requires Store().Has(xi) && Store().Has(Node(xi).prev) && Store().Has(Node(xi).next)
      modifies this`root, this`nodes
      ensures Store() == old(Store()).Unlink(xi)
      ensures |nodes| == |old(nodes)|
    {
      var p, n := Node(xi).prev, Node(xi).next;
      PutNode(p, Node(p).(next := n));
      PutNode(n, Node(n).(prev := p));
    }

    // An empty node vector comes with an uninitialized list head.
    method InitRoot()
      requires Valid()
      modifies this`root
      ensures Inv(Store(), kids, rank, top, ldeg, {}, {}) && Keyed(Store(), kids)
    {
      if |nodes| == 0 {
        root := root.(next := ROOT, prev := ROOT, sup := NIL, sub := NIL);
        EmptyInv(Store());
      }
    }

    // Make xi a node without links.
    method Reset(xi: nat)
      requires xi < ROOT && |nodes| <= ROOT
      modifies this`nodes
      ensures |old(nodes)| <= |nodes| <= ROOT && xi < |nodes| && IsFresh(nodes[xi])
      ensures forall y :: 0 <= y < |old(nodes)| && y != xi ==> nodes[y] == old(nodes)[y]
    {
      if |nodes| <= xi {
        nodes := nodes + seq(xi + 1 - |nodes|, _ => ZERO_NODE);
      }
      nodes := nodes[xi := nodes[xi].(sup := NIL, sub := NIL, nSub := 0, isMarked := false)];
    }

    // Enters index xi as a root.
    method Add(xi: nat)
      requires Valid() && xi < ROOT && xi !in Live()
      modifies this
      ensures Valid() && Live() == old(Live()) + {xi} && !minValid
      ensures forall cmp: Ordering :: old(Ordered(cmp)) ==> Ordered(cmp)
      ensures Unmarked() <==> old(Unmarked())
      ensures kids == old(kids)[xi := []][NIL := [xi] + old(kids[NIL])] && |nodes| > 0
    {
      hide Inv, EdgesOrdered, IsLeast, EdgesWithin, Links.LinkAfter, IsFresh, RootsUnmarked;
      InitRoot();
      ghost var l0, kids0 := Store(), kids;
      minValid := false;
      Reset(xi);
      AddInv(l0, Store(), kids, rank, top, ldeg, xi);
      AddKeepsMarks(l0, Store(), kids, rank, top, ldeg, xi);
      AddRoot(xi);
      kids := kids[xi := []][NIL := [xi] + kids[NIL]];
      EdgesWithinOrdered(kids0, kids);
      rank, ldeg := rank[xi := 0], ldeg[xi := 0];
    }

    // The children of the loose node xi become roots.
    method CutChildren(xi: nat)
      requires Shape(Store(), kids, {xi}) && Counted(Store(), kids, xi)
      modifies this`root, this`nodes, this`kids
      ensures Shape(Store(), kids, {})
      ensures kids.Keys == old(kids).Keys - {xi}
      ensures forall q :: q in kids && q != NIL ==> kids[q] == old(kids)[q]
      ensures Orphaned(old(Store()), Store(), old(kids), xi)
      ensures xi < |nodes| == |old(nodes)| && nodes[xi].next == old(nodes)[xi].next
    {
      ghost var l0, kids0 := Store(), kids;
      var bi := nodes[xi].sub;
      ghost var t := CutBegin(l0, kids0, xi);
      hide Shape, CutProgress, ToRoot, Orphaned;
      kids := kids - {xi};
      if bi == NIL {
        return;
      }
      ghost var k := 0;
      var ci := bi;
      while true
        invariant 0 <= k < |t| && ci == t[k] && bi == t[0]
        invariant CutProgress(l0, kids0, Store(), kids, xi, t, k)
        decreases |t| - k
      {
        CutProgressNext(l0, kids0, Store(), kids, xi, t, k);
        CutStep(l0, kids0, Store(), kids, xi, t, k);
        var ni := nodes[ci].next;
        MoveToRoot(ci);
        kids := kids[NIL := [ci] + kids[NIL]];
        if ni == bi {
          CutEnd(l0, kids0, Store(), kids, xi, t);
          break;
        }
        ci := ni;
        k := k + 1;
      }
    }

    // Node supi has lost a child; ni is one it still has, if any.
    method DropChild(supi: nat, ni: nat)
      requires supi < |nodes| <= ROOT && nodes[supi].nSub > 0
      modifies this`nodes
      ensures Store() == old(Store()).Put(supi, Settled(old(nodes)[supi], ni))
    {
      nodes := nodes[supi := nodes[supi].(nSub := nodes[supi].nSub - 1)];
      nodes := nodes[supi := nodes[supi].(isMarked := true)];
      nodes := nodes[supi := nodes[supi].(sub := ni)];
      if nodes[supi].nSub == 0 {
        nodes := nodes[supi := nodes[supi].(sub := NIL)];
      }
    }

    // The parents of a lost child account for it; marked ones are cut in turn.
    method AdjustParents(xi: nat, sup0: nat, ni0: nat)
      requires Debt(Store(), kids, rank, top, ldeg, sup0, ni0)
      modifies this`root, this`nodes, this`kids
      ensures Inv(Store(), kids, rank, top, ldeg, {}, {})
      ensures kids.Keys == old(kids).Keys && |nodes| == |old(nodes)|
      ensures EdgesWithin(kids, old(kids)) && Adjusted(old(Store()), Store(), sup0)
    {
      hide Inv, Debt, EdgesWithin, ToRoot, Links.Unlink, CutKids, Adjusting, Adjusted, MovedToRoot;
      var supi, ni := sup0, ni0;
      ghost var kids0, l0 := kids, Store();
      DebtOf(Store(), kids, rank, top, ldeg, supi, ni);
      AdjustStart(l0, sup0);
      EdgesWithinSelf(kids);
      while true
        invariant Debt(Store(), kids, rank, top, ldeg, supi, ni)
        invariant kids.Keys == kids0.Keys && |nodes| == |old(nodes)| && EdgesWithin(kids, kids0)
        invariant supi in rank && rank[supi] <= top && Adjusting(l0, Store(), sup0, supi)
        decreases top - rank[supi]
      {
        ghost var l := Store();
        DebtOf(l, kids, rank, top, ldeg, supi, ni);
        var wasMarked := nodes[supi].isMarked;
        DropChild(supi, ni);
        var sup2i := nodes[supi].sup;
        if !wasMarked || sup2i == NIL {
          PayAndStop(l, kids, rank, top, ldeg, supi, ni);
          AdjustStop(l0, l, sup0, supi, ni);
          break;
        }
        ghost var i := PayAndCut(l, kids, rank, top, ldeg, supi, ni, Store());
        ghost var kids1, paid := kids, ni;
        ni := nodes[supi].next;
        Unlink(supi);
        MoveToRoot(supi);
        AdjustOn(l0, l, sup0, supi, paid, Store(), sup2i);
        kids := CutKids(kids, sup2i, i);
        EdgesWithinTrans(kids, kids1, kids0);
        supi := sup2i;
      }
    }

    // Takes index i out; its children become roots.
    method Del(i: nat)
      requires Valid() && i in Live()
      modifies this
      ensures Valid() && Live() == old(Live()) - {i}
      ensures minIndex == old(minIndex) && minValid == (old(minValid) && i != old(minIndex))
      ensures forall cmp: Ordering :: old(OrderedExcept(cmp, i)) ==> Ordered(cmp)
      ensures i < |old(nodes)| && (old(Unmarked()) ==> (Unmarked() <==> old(SafeToDel(i))))
    {
      hide Inv, Debt, EdgesAvoid, EdgesWithin, Shape, Orphaned, EdgesOrdered, Ranked, Adjusted, RootsUnmarked, SafeToDelete;
      var xi := i;
      ghost var l0, kids0, rank0 := Store(), kids, rank;
      TakeOut(xi);
      ghost var l2 := Store();
      var supi := nodes[xi].sup;
      minValid := minValid && xi != minIndex;
      if supi != NIL {
        ghost var kids2 := kids;
        AdjustParents(xi, supi, nodes[xi].next);
        EdgesAvoidWithin(kids, kids2, kids0, xi);
      }
      EdgesAvoidOrdered(kids0, kids, xi);
      if old(Unmarked()) {
        DelMarks(l0, l2, Store(), kids0, rank0, top, xi);
        assert kids.Keys - {NIL} == kids0.Keys - {NIL} - {xi};
      }
    }

    // Unlinks xi and makes its children roots; its parent still counts it.
    method TakeOut(xi: nat)
      requires Inv(Store(), kids, rank, top, ldeg, {}, {}) && xi in Live()
      modifies this`root, this`nodes, this`kids, this`rank, this`ldeg
      ensures kids.Keys == old(kids).Keys - {xi} && rank == old(rank) - {xi} && ldeg == old(ldeg) - {xi}
      ensures EdgesAvoid(kids, old(kids), xi) && Orphaned(old(Store()), Store(), old(kids), xi)
      ensures xi < |nodes| == |old(nodes)| && nodes[xi].sup == old(nodes)[xi].sup
      ensures if nodes[xi].sup == NIL then Inv(Store(), kids, rank, top, ldeg, {}, {})
              else Debt(Store(), kids, rank, top, ldeg, nodes[xi].sup, nodes[xi].next)
      ensures old(Shape(Store(), kids, {}) && Ranked(kids, rank, top))
    {
      hide Inv, Debt, EdgesAvoid, Shape, Counted, Links.Unlink, Relinked, Orphaned, Ranked;
      ghost var l0, kids0 := Store(), kids;
      ghost var idx := DelBegin(l0, kids0, rank, top, ldeg, xi);
      ghost var p := nodes[xi].sup;
      ghost var kids1 := kids[p := Without(kids[p], idx)];
      Unlink(xi);
      ghost var l1 := Store();
      kids := kids1;
      CutChildren(xi);
      DelMiddle(l0, l1, Store(), kids0, kids1, kids, rank, top, ldeg, xi, idx);
      rank, ldeg := rank - {xi}, ldeg - {xi};
    }

    // Puts xi in its place again after its key has changed.
    method Update(xi: nat)
      requires Valid() && xi in Live()
      modifies this
      ensures Valid() && Live() == old(Live()) && !minValid
      ensures forall cmp: Ordering :: old(OrderedExcept(cmp, xi)) ==> Ordered(cmp)
      ensures xi < |old(nodes)| && (old(Unmarked()) ==> (Unmarked() <==> old(SafeToDel(xi))))
    {
      hide Inv, RootsUnmarked, SafeToDelete;
      LiveBelowRoot();
      Del(xi);
      Add(xi);
      assert old(Live()) - {xi} + {xi} == old(Live());
    }

    lemma OrderedAway(cmp: Ordering, x: nat)
      requires Ordered(cmp)
      ensures OrderedExcept(cmp, x)
    {
    }

    lemma LiveBelowRoot()
      requires Valid()
      ensures forall x :: x in Live() ==> x < |nodes| <= ROOT
    {
    }

    // Del leaves a mark on a root: Min puts one of two nodes below the other, and the
    // lower one is deleted.
    static method MarkedRootExample() returns (h: FibHeap)
      ensures fresh(h) && h.Valid() && !h.Unmarked()
    {
      hide Inv, RootsUnmarked, EdgesOrdered, SafeToDelete, TotalPreorder, IsLeast, DegreesDiffer;
      h := TwoAdded();
      var cmp: Ordering := (i, j) => i - j;
      DifferenceOrders(cmp, h.Live());
      var m, valid := h.Min(cmp);
      ghost var p := TwoNodes(h.Store(), h.kids, h.rank, h.top, h.ldeg);
      var c := if h.nodes[0].sup == NIL then 1 else 0;
      h.Del(c);
    }

    static method TwoAdded() returns (h: FibHeap)
      ensures fresh(h) && h.Valid() && h.Live() == {0, 1} && h.Unmarked() && !h.minValid && |h.nodes| > 0
      ensures forall cmp: Ordering :: h.Ordered(cmp)
    {
      hide Inv, RootsUnmarked, EdgesOrdered, IsLeast;
      h := new FibHeap();
      h.Add(0);
      h.Add(1);
    }

    // Root ri0 becomes a child of root ri.
    method LinkUnder(ri0: nat, ri: nat, ghost i0: nat)
      requires Inv(Store(), kids, rank, top, ldeg, {}, {}) && TwoRoots(kids, ri0, ri, i0)
      modifies this`root, this`nodes, this`kids, this`rank, this`top, this`ldeg
      ensures Inv(Store(), kids, rank, top, ldeg, {}, {}) && kids.Keys == old(kids).Keys
      ensures LinkedKids(old(kids), kids, ri0, ri, i0)
      ensures |nodes| == |old(nodes)| && (old(Unmarked()) ==> Unmarked())
    {
      hide Inv, LinkedKids, TwoRoots, CanAdopt, Links.Unlink, AdoptUnder, RootsUnmarked;
      ghost var l0 := Store();
      ghost var kids1, n := LinkRoots(Store(), kids, rank, top, ldeg, ri0, ri, i0);
      if Unmarked() {
        LinkKeepsMarks(l0, kids, rank, top, ldeg, ri0, ri, i0);
      }
      Unlink(ri0);
      Adopt(ri0, ri);
      rank, top, ldeg := rank[ri := n], if n > top then n else top, ldeg[ri0 := |kids[ri]|];
      kids := kids1;
    }

    method Adopt(ri0: nat, ri: nat)
      requires CanAdopt(Store(), ri0, ri)
      modifies this`root, this`nodes
      ensures Store() == AdoptUnder(old(Store()), ri0, ri) && |nodes| == |old(nodes)|
    {
      nodes := nodes[ri0 := nodes[ri0].(isMarked := false, sup := ri)];
      if nodes[ri].sub != NIL {
        nodes := nodes[ri := nodes[ri].(nSub := nodes[ri].nSub + 1)];
        LinkAfter(nodes[ri].sub, ri0);
      } else {
        nodes := nodes[ri := nodes[ri].(sub := ri0, nSub := 1, isMarked := false)];
        nodes := nodes[ri0 := nodes[ri0].(next := ri0, prev := ri0)];
      }
    }

    // Link roots of equal degree until all degrees differ; deg[d] for d in
    // degValid are then the roots.
    method Consolidate(cmp: Ordering) returns (deg: seq<nat>, degValid: set<nat>)
      requires |nodes| > 0 && Inv(Store(), kids, rank, top, ldeg, {}, {}) && EdgesOrdered(kids, cmp)
      requires TotalPreorder(cmp, Live()) && |Live()| < FIB_34
      modifies this`root, this`nodes, this`kids, this`rank, this`top, this`ldeg
      ensures |nodes| > 0 && Inv(Store(), kids, rank, top, ldeg, {}, {}) && EdgesOrdered(kids, cmp)
      ensures Live() == old(Live()) && (old(Unmarked()) ==> Unmarked())
      ensures forall d :: d in degValid ==> d < |deg| && deg[d] in kids[NIL]
      ensures forall x :: x in kids[NIL] ==> x in kids && |kids[x]| in degValid && |kids[x]| < |deg| && deg[|kids[x]|] == x
    {
      hide Inv, EdgesOrdered, FibScan.Scan, LinkedKids, TwoRoots, RootsUnmarked;
      // Degrees seen so far, and which of them are valid.
      deg := seq(MAX_N_SUB, _ => 0);
      degValid := {};
      ScanBegin(Store(), kids, rank, top, ldeg, deg);
      var ri: nat := root.next;
      var ni: nat := if ri == ROOT then 0 else nodes[ri].next;
      ghost var k: nat := if ri == ROOT then 0 else 1;
      while ri != ROOT
        invariant |nodes| == |old(nodes)| && Inv(Store(), kids, rank, top, ldeg, {}, {})
        invariant EdgesOrdered(kids, cmp) && kids.Keys == old(kids).Keys
        invariant |deg| == MAX_N_SUB && FibScan.Scan(kids, deg, degValid, ri, ni, k)
        invariant k <= |kids[NIL]| && (old(Unmarked()) ==> Unmarked())
        decreases |kids[NIL]| + (|kids[NIL]| - k) + (if ri == ROOT then 0 else 1)
      {
        InvKeyed(Store(), kids, rank, top, ldeg, {});
        ScanHere(Store(), kids, rank, top, ldeg, deg, degValid, ri, ni, k);
        var ns := nodes[ri].nSub;
        if ns !in degValid {
          ScanOn(Store(), kids, rank, top, ldeg, deg, degValid, ri, ni, k);
          deg, degValid := deg[ns := ri], degValid + {ns};
          ri := ni;
          k := if ni == ROOT then k else k + 1;
          ni := Node(ni).next;
        } else {
          ri := LinkPair(cmp, deg[ns], deg, degValid, ri, ni, k);
          degValid := degValid - {ns};
          k := k - 1;
        }
      }
      ScanDone(Store(), kids, rank, top, ldeg, deg, degValid, ni, k);
    }

    // Links root r1 and the root r0 of its degree, seen before; the lesser is on top.
    method LinkPair(cmp: Ordering, r0: nat, ghost deg: seq<nat>, ghost degValid: set<nat>, r1: nat, ghost ni: nat, ghost k: nat) returns (ri: nat)
      requires Inv(Store(), kids, rank, top, ldeg, {}, {}) && EdgesOrdered(kids, cmp) && TotalPreorder(cmp, Live())
      requires NIL in kids && FibScan.Scan(kids, deg, degValid, r1, ni, k) && r1 != ROOT && k <= |kids[NIL]|
      requires r1 in kids && |kids[r1]| in degValid && |kids[r1]| < |deg| && r0 == deg[|kids[r1]|]
      modifies this`root, this`nodes, this`kids, this`rank, this`top, this`ldeg
      ensures Inv(Store(), kids, rank, top, ldeg, {}, {}) && EdgesOrdered(kids, cmp)
      ensures kids.Keys == old(kids).Keys && |nodes| == |old(nodes)| && (old(Unmarked()) ==> Unmarked())
      ensures k > 0 && |kids[NIL]| == |old(kids[NIL])| - 1
      ensures FibScan.Scan(kids, deg, degValid - {|old(kids[r1])|}, ri, ni, k - 1)
    {
      hide Inv, EdgesOrdered, FibScan.Scan, LinkedKids, TwoRoots, RootsUnmarked;
      ghost var l1, kids1, rank1, top1, ldeg1 := Store(), kids, rank, top, ldeg;
      ri := r1;
      var ri0 := r0;
      if cmp(ri0, ri) <= 0 {
        ri, ri0 := ri0, ri;
      }
      ghost var i0 := ScanPair(l1, kids, rank, top, ldeg, deg, degValid, r1, ni, k, ri0, ri);
      RootsLive(l1, kids, rank, top, ldeg, ri0, ri, i0);
      LinkUnder(ri0, ri, i0);
      ScanLinked(l1, kids1, kids, rank1, top1, ldeg1, deg, degValid, r1, ni, k, ri0, ri, i0);
      LinkKeepsOrder(kids1, kids, cmp, ri0, ri, i0);
    }

    method Min(cmp: Ordering) returns (minu: nat, valid: bool)
      requires Valid() && Ordered(cmp) && TotalPreorder(cmp, Live()) && |Live()| < FIB_34
      modifies this
      ensures Valid() && Ordered(cmp) && Live() == old(Live()) && (old(Unmarked()) ==> Unmarked())
      ensures valid == minValid && minu == minIndex
      ensures valid <==> Live() != {}
      ensures valid ==> IsLeast(cmp, minu, Live())
      ensures !old(minValid) ==> DegreesDiffer(kids)
    {
      hide Inv, EdgesOrdered, TotalPreorder, RootsUnmarked, DegreesDiffer;
      NoneDiffers();
      minu := minIndex;
      valid := minValid;
      if valid || |nodes| == 0 {
        return;
      }
      var deg, degValid := Consolidate(cmp);
      InvKeyed(Store(), kids, rank, top, ldeg, {});
      TableDiffers(kids, deg);
      var min := LeastRoot(cmp, deg, degValid);
      valid := min != NIL;
      minValid := valid;
      minIndex := min;
      minu := min;
    }

    // Least of the roots named by the degree table, NIL if there is none.
    method LeastRoot(cmp: Ordering, deg: seq<nat>, degValid0: set<nat>) returns (min: nat)
      requires Inv(Store(), kids, rank, top, ldeg, {}, {}) && EdgesOrdered(kids, cmp) && TotalPreorder(cmp, Live())
      requires forall d :: d in degValid0 ==> d < |deg| && deg[d] in kids[NIL]
      requires forall x :: x in kids[NIL] ==> x in kids && |kids[x]| in degValid0 && |kids[x]| < |deg| && deg[|kids[x]|] == x
      ensures min != NIL <==> Live() != {}
      ensures min != NIL ==> IsLeast(cmp, min, Live())
    {
      hide Inv, EdgesOrdered, TotalPreorder, IsLeast;
      var degValid := degValid0;
      min := NIL;
      RootsExist(Store(), kids, rank, top, ldeg);
      while degValid != {}
        invariant min != NIL ==> min in kids[NIL]
        invariant degValid <= degValid0
        invariant forall x :: x in kids[NIL] && |kids[x]| !in degValid ==> min != NIL && cmp(min, x) <= 0
        decreases degValid
      {
        ghost var low := LowestExists(degValid);
        var ns :| ns in degValid && forall d :: d in degValid ==> ns <= d;
        degValid := degValid - {ns};
        var ri := deg[ns];
        if min == NIL || cmp(ri, min) < 0 {
          LeastSoFar(Store(), kids, rank, top, ldeg, cmp, ri, min);
          min := ri;
        } else {
          LeastSoFar(Store(), kids, rank, top, ldeg, cmp, min, ri);
        }
      }
      FinalLeast(Store(), kids, rank, top, ldeg, cmp, min);
    }
  }
}

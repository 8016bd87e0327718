// The scan over the root list that links roots of equal degree until all
// degrees differ.
module FibScan {
  import opened Basics
  import opened FibLinks
  import opened FibShape
  import opened FibDegree
  import opened FibInvariant
  import opened FibLinking

  ghost function Members(s: seq<nat>): set<nat> {
    set c | c in s
  }

  // Every visited root is in the degree table under its number of children,
  // except ri, the one in hand.
  ghost predicate Table(kids: Kids, deg: seq<nat>, degValid: set<nat>, ri: nat, visited: set<nat>) {
    && |deg| == MAX_N_SUB
    && (forall d :: d in degValid ==> Listed(kids, deg, d) && deg[d] in visited && deg[d] != ri)
    && (forall x :: x in visited ==> x == ri || (x in kids && |kids[x]| in degValid && deg[|kids[x]|] == x))
  }

  ghost predicate Listed(kids: Kids, deg: seq<nat>, d: nat)
    requires |deg| == MAX_N_SUB
  {
    d < MAX_N_SUB && deg[d] in kids && |kids[deg[d]]| == d
  }

  // The first k roots have been visited; ni is the next to visit.
  ghost predicate Scan(kids: Kids, deg: seq<nat>, degValid: set<nat>, ri: nat, ni: nat, k: nat)
    requires NIL in kids
  {
    && k <= |kids[NIL]|
    && Table(kids, deg, degValid, ri, Members(kids[NIL][..k]))
    && (if ri == ROOT then k == |kids[NIL]|
        else ri in kids[NIL][..k] && ni == if k < |kids[NIL]| then kids[NIL][k] else ROOT)
  }

  lemma TableAdvance(kids: Kids, deg: seq<nat>, degValid: set<nat>, ri: nat, ni: nat, visited: set<nat>)
    requires Table(kids, deg, degValid, ri, visited) && ri in kids && ri in visited && ri != ni
    requires |kids[ri]| < MAX_N_SUB && |kids[ri]| !in degValid && ni !in visited
    ensures Table(kids, deg[|kids[ri]| := ri], degValid + {|kids[ri]|}, ni, visited)
    ensures Table(kids, deg[|kids[ri]| := ri], degValid + {|kids[ri]|}, ni, visited + {ni})
  {
    var n := |kids[ri]|;
    var deg', degValid' := deg[n := ri], degValid + {n};
    forall d | d in degValid'
      ensures Listed(kids, deg', d) && deg'[d] in visited && deg'[d] != ni
    {
      assert d == n || Listed(kids, deg, d);
    }
  }

  lemma TableLink(kids: Kids, kids': Kids, deg: seq<nat>, degValid: set<nat>, ri: nat, visited: set<nat>, x: nat, r: nat)
    requires Table(kids, deg, degValid, ri, visited) && ri in kids && ri in visited && |kids[ri]| in degValid
    requires x != r && x in {ri, deg[|kids[ri]|]} && r in {ri, deg[|kids[ri]|]}
    requires kids'.Keys == kids.Keys && NIL !in visited && forall q :: q in kids && q != NIL && q != r ==> kids'[q] == kids[q]
    ensures Table(kids', deg, degValid - {|kids[ri]|}, r, visited - {x})
  {
    var n := |kids[ri]|;
    assert Listed(kids, deg, n);
    forall d | d in degValid - {n}
      ensures Listed(kids', deg, d) && deg[d] in visited - {x} && deg[d] != r
    {
      assert Listed(kids, deg, d);
    }
    forall y | y in visited - {x} && y != r
      ensures y in kids' && |kids'[y]| in degValid - {n} && deg[|kids'[y]|] == y
    {
    }
  }

  lemma RootNext(l: Links, kids: Kids, k: nat)
    requires Keyed(l, kids) && AllRings(l, kids) && k < |kids[NIL]|
    ensures l.Has(kids[NIL][k])
    ensures l.At(kids[NIL][k]).next == if k + 1 < |kids[NIL]| then kids[NIL][k + 1] else ROOT
  {
    var s := RingOf(kids, NIL);
    assert Ring(l, s);
    RingNeighbours(l, s, k + 1);
  }

  lemma FirstRoot(l: Links, kids: Kids)
    requires Keyed(l, kids) && AllRings(l, kids)
    ensures l.root.next == if kids[NIL] == [] then ROOT else kids[NIL][0]
  {
    var s := RingOf(kids, NIL);
    assert Ring(l, s);
    RingNeighbours(l, s, 0);
  }

  lemma RootIsNode(l: Links, kids: Kids, x: nat)
    requires Keyed(l, kids) && AllOwned(l, kids) && x in kids[NIL]
    ensures x in kids && x != NIL && x != ROOT && x < |l.nodes|
  {
    assert Owned(l, kids, NIL);
  }

  lemma ScanStart(l: Links, kids: Kids, deg: seq<nat>)
    requires Shape(l, kids, {}) && |deg| == MAX_N_SUB
    ensures l.root.next != ROOT ==> kids[NIL] != [] && l.root.next < |l.nodes|
    ensures var ri := l.root.next;
            Scan(kids, deg, {}, ri, if ri == ROOT then 0 else l.nodes[ri].next, if ri == ROOT then 0 else 1)
  {
    FirstRoot(l, kids);
    if kids[NIL] != [] {
      RootIsNode(l, kids, kids[NIL][0]);
      RootNext(l, kids, 0);
      assert kids[NIL][..1] == [kids[NIL][0]];
    }
  }

  lemma ScanFacts(l: Links, kids: Kids, deg: seq<nat>, degValid: set<nat>, ri: nat, ni: nat, k: nat)
    requires Shape(l, kids, {}) && Scan(kids, deg, degValid, ri, ni, k) && ri != ROOT
    ensures ri in kids && ri != NIL && ri < |l.nodes| <= ROOT && l.Has(ni)
  {
    RootIsNode(l, kids, ri);
    if k < |kids[NIL]| {
      RootIsNode(l, kids, kids[NIL][k]);
    }
  }

  // No visited root has the degree of ri yet.
  lemma ScanAdvance(l: Links, kids: Kids, deg: seq<nat>, degValid: set<nat>, ri: nat, ni: nat, k: nat, d: nat)
    requires NIL in kids && ri in kids && |kids[ri]| == d < MAX_N_SUB == |deg| && d !in degValid && l.Has(ni)
    requires Shape(l, kids, {}) && Scan(kids, deg, degValid, ri, ni, k) && ri != ROOT
    ensures Scan(kids, deg[d := ri], degValid + {d}, ni, l.At(ni).next, if ni == ROOT then k else k + 1)
    ensures ni == ROOT <==> k == |kids[NIL]|
  {
    hide Table, Shape, Members, Scan;
    ScanParts(kids, deg, degValid, ri, ni, k);
    AdvanceReady(l, kids, ri, ni, k);
    TableAdvance(kids, deg, degValid, ri, ni, Members(kids[NIL][..k]));
    ScanFrom(kids, deg[d := ri], degValid + {d}, ni, l.At(ni).next, if ni == ROOT then k else k + 1);
  }

  lemma AdvanceReady(l: Links, kids: Kids, ri: nat, ni: nat, k: nat)
    requires Shape(l, kids, {}) && k <= |kids[NIL]|
    requires ri in kids[NIL][..k] && ni == if k < |kids[NIL]| then kids[NIL][k] else ROOT
    ensures var seen := Members(kids[NIL][..k]);
            && ri in seen && ni !in seen && ri != ni && (ni == ROOT <==> k == |kids[NIL]|)
            && (ni != ROOT ==> Members(kids[NIL][..k + 1]) == seen + {ni} && ni in kids[NIL][..k + 1] && l.Has(ni)
                               && l.At(ni).next == if k + 1 < |kids[NIL]| then kids[NIL][k + 1] else ROOT)
  {
    hide AllOwned, AllRings, AllPlaced, LooseOk, Members;
    NotARoot(l, kids);
    InMembers(kids[NIL], k, ri);
    InMembers(kids[NIL], k, ROOT);
    if k < |kids[NIL]| {
      VisitNext(l, kids, k);
    }
  }

  lemma ScanParts(kids: Kids, deg: seq<nat>, degValid: set<nat>, ri: nat, ni: nat, k: nat)
    requires NIL in kids && Scan(kids, deg, degValid, ri, ni, k) && ri != ROOT
    ensures k <= |kids[NIL]| && |deg| == MAX_N_SUB && Table(kids, deg, degValid, ri, Members(kids[NIL][..k]))
    ensures ri in kids[NIL][..k] && ni == if k < |kids[NIL]| then kids[NIL][k] else ROOT
  {
  }

  lemma ScanFrom(kids: Kids, deg: seq<nat>, degValid: set<nat>, ri: nat, ni: nat, k: nat)
    requires NIL in kids && k <= |kids[NIL]| && Table(kids, deg, degValid, ri, Members(kids[NIL][..k]))
    requires if ri == ROOT then k == |kids[NIL]|
             else ri in kids[NIL][..k] && ni == if k < |kids[NIL]| then kids[NIL][k] else ROOT
    ensures Scan(kids, deg, degValid, ri, ni, k)
  {
  }

  lemma InMembers(s: seq<nat>, k: nat, x: nat)
    requires k <= |s|
    ensures x in Members(s[..k]) <==> x in s[..k]
    ensures x !in s ==> x !in s[..k]
  {
  }

  lemma VisitNext(l: Links, kids: Kids, k: nat)
    requires Keyed(l, kids) && AllOwned(l, kids) && AllRings(l, kids) && k < |kids[NIL]|
    ensures var ni := kids[NIL][k];
            && ni != ROOT && l.Has(ni) && ni !in Members(kids[NIL][..k]) && ni in kids[NIL][..k + 1]
            && l.At(ni).next == (if k + 1 < |kids[NIL]| then kids[NIL][k + 1] else ROOT)
            && Members(kids[NIL][..k + 1]) == Members(kids[NIL][..k]) + {ni}
  {
    hide AllOwned, AllRings, Members;
    RootIsNode(l, kids, kids[NIL][k]);
    RootNext(l, kids, k);
    RootsDistinct(l, kids);
    TakeOneMore(kids[NIL], k);
  }

  lemma RootsDistinct(l: Links, kids: Kids)
    requires Keyed(l, kids) && AllOwned(l, kids)
    ensures Distinct(kids[NIL])
  {
    assert Owned(l, kids, NIL);
  }

  lemma TakeOneMore(s: seq<nat>, k: nat)
    requires Distinct(s) && k < |s|
    ensures s[k] !in Members(s[..k]) && s[k] in s[..k + 1]
    ensures Members(s[..k + 1]) == Members(s[..k]) + {s[k]}
  {
    assert s[..k + 1] == s[..k] + [s[k]];
  }

  lemma NotARoot(l: Links, kids: Kids)
    requires Keyed(l, kids) && AllOwned(l, kids)
    ensures ROOT !in kids[NIL] && NIL !in kids[NIL]
  {
    assert Owned(l, kids, NIL);
  }

  // The roots seen, once the i-th of them is no longer one.
  lemma SeenWithout(l: Links, kids: Kids, kids': Kids, k: nat, x: nat, r: nat, i: nat)
    requires Keyed(l, kids) && AllOwned(l, kids) && i < k <= |kids[NIL]| && LinkedKids(kids, kids', x, r, i)
    ensures |kids'[NIL]| == |kids[NIL]| - 1 && x in kids[NIL][..k]
    ensures Members(kids'[NIL][..k - 1]) == Members(kids[NIL][..k]) - {x}
    ensures forall y :: y in kids[NIL][..k] && y != x ==> y in kids'[NIL][..k - 1]
    ensures k < |kids[NIL]| ==> kids'[NIL][k - 1] == kids[NIL][k]
    ensures kids'.Keys == kids.Keys && NIL !in Members(kids[NIL][..k]) && ROOT !in kids[NIL][..k]
    ensures forall q :: q in kids && q != NIL && q != r ==> kids'[q] == kids[q]
  {
    var roots, roots' := kids[NIL], kids'[NIL];
    NotARoot(l, kids);
    RootsDistinct(l, kids);
    assert kids[NIL][..k][i] == x;
    WithoutMembers(roots[..k], i);
    assert roots'[..k - 1] == Without(roots[..k], i);
  }

  // A visited root of the degree of ri is linked with it; r is the one on top.
  lemma ScanLink(l: Links, kids: Kids, kids': Kids, deg: seq<nat>, degValid: set<nat>, ri: nat, ni: nat, k: nat, x: nat, r: nat, i: nat)
    requires Keyed(l, kids) && AllOwned(l, kids)
    requires Scan(kids, deg, degValid, ri, ni, k) && ri != ROOT && ri in kids && |kids[ri]| in degValid
    requires {x, r} == {ri, deg[|kids[ri]|]} && x != r
    requires i < k && LinkedKids(kids, kids', x, r, i)
    ensures k > 0 && Scan(kids', deg, degValid - {|kids[ri]|}, r, ni, k - 1)
    ensures |kids'[NIL]| == |kids[NIL]| - 1
  {
    hide Scan, Table, LinkedKids, Members, AllOwned;
    ScanParts(kids, deg, degValid, ri, ni, k);
    SeenWithout(l, kids, kids', k, x, r, i);
    InMembers(kids[NIL], k, ri);
    assert x in {x, r} && r in {x, r};
    ListedSeen(kids, deg, degValid, ri, kids[NIL][..k], |kids[ri]|);
    TableLink(kids, kids', deg, degValid, ri, Members(kids[NIL][..k]), x, r);
    ScanFrom(kids', deg, degValid - {|kids[ri]|}, r, ni, k - 1);
  }

  lemma ListedSeen(kids: Kids, deg: seq<nat>, degValid: set<nat>, ri: nat, seen: seq<nat>, d: nat)
    requires Table(kids, deg, degValid, ri, Members(seen)) && d in degValid
    ensures d < |deg| && deg[d] in seen
  {
    assert Listed(kids, deg, d);
  }

  // At the end the table names every root.
  lemma ScanEnd(kids: Kids, deg: seq<nat>, degValid: set<nat>, ni: nat, k: nat)
    requires NIL in kids && ROOT !in kids[NIL] && Scan(kids, deg, degValid, ROOT, ni, k)
    ensures forall d :: d in degValid ==> d < |deg| && deg[d] in kids[NIL]
    ensures forall x :: x in kids[NIL] ==> x in kids && |kids[x]| in degValid && deg[|kids[x]|] == x
  {
    assert kids[NIL][..k] == kids[NIL];
    forall d | d in degValid
      ensures d < |deg| && deg[d] in kids[NIL]
    {
      assert Listed(kids, deg, d);
    }
    forall x | x in kids[NIL]
      ensures x in kids && |kids[x]| in degValid && deg[|kids[x]|] == x
    {
      assert x in Members(kids[NIL][..k]);
    }
  }
}

// The lists of the heap as one family: kids[p] is the list of children of p in
// list order, kids[NIL] the list of roots.  A node that is between two lists is
// loose.
module FibShape {
  import opened Basics
  import opened FibLinks

  type Kids = map<nat, seq<nat>>

  function RingOf(kids: Kids, p: nat): seq<nat>
    requires p in kids
  {
    if p == NIL then [ROOT] + kids[p] else kids[p]
  }

  ghost predicate Keyed(l: Links, kids: Kids) {
    && NIL in kids
    && |l.nodes| <= ROOT
    && forall x :: x in kids && x != NIL ==> x < |l.nodes|
  }

  // The list of p names each child of p once.
  ghost predicate Owned(l: Links, kids: Kids, p: nat)
    requires Keyed(l, kids) && p in kids
  {
    && Distinct(kids[p])
    && forall c :: c in kids[p] ==> c in kids && c != NIL && l.At(c).sup == p
  }

  ghost predicate AllOwned(l: Links, kids: Kids)
    requires Keyed(l, kids)
  {
    forall p :: p in kids ==> Owned(l, kids, p)
  }

  ghost predicate AllRings(l: Links, kids: Kids) {
    forall p :: p in kids ==> Ring(l, RingOf(kids, p))
  }

  ghost predicate Placed(l: Links, kids: Kids, x: nat)
    requires Keyed(l, kids) && x in kids && x != NIL
  {
    l.At(x).sup in kids && x in kids[l.At(x).sup]
  }

  ghost predicate AllPlaced(l: Links, kids: Kids, loose: set<nat>)
    requires Keyed(l, kids)
  {
    forall x :: x in kids && x != NIL && x !in loose ==> Placed(l, kids, x)
  }

  ghost predicate LooseOk(kids: Kids, loose: set<nat>) {
    && (forall x :: x in loose ==> x in kids && x != NIL)
    && (forall x, p :: x in loose && p in kids ==> x !in kids[p])
  }

  ghost predicate Shape(l: Links, kids: Kids, loose: set<nat>) {
    Keyed(l, kids) && AllOwned(l, kids) && AllRings(l, kids) && AllPlaced(l, kids, loose) && LooseOk(kids, loose)
  }

  // ---- facts about single lists

  lemma InsertAfterMembers(s: seq<nat>, j: nat, x: nat)
    requires j < |s| && Distinct(s) && x !in s
    ensures Distinct(InsertAfter(s, j, x))
    ensures forall y :: y in InsertAfter(s, j, x) <==> y in s || y == x
  {
    var t := InsertAfter(s, j, x);
    forall y | y in s
      ensures y in t
    {
      var i :| 0 <= i < |s| && s[i] == y;
      assert t[if i <= j then i else i + 1] == y;
    }
    assert t[j + 1] == x;
  }

  lemma PushMembers(s: seq<nat>, x: nat)
    requires Distinct(s) && x !in s
    ensures Distinct([x] + s)
    ensures forall y :: y in [x] + s <==> y in s || y == x
  {
    assert ([x] + s)[0] == x;
    assert forall i :: 0 <= i < |s| ==> ([x] + s)[i + 1] == s[i];
  }

  lemma RingHas(l: Links, s: seq<nat>, y: nat)
    requires Ring(l, s) && y in s
    ensures l.Has(y)
  {
    var i :| 0 <= i < |s| && s[i] == y;
    RingNeighbours(l, s, i);
  }

  lemma RingOfDistinct(l: Links, kids: Kids, p: nat)
    requires Keyed(l, kids) && AllOwned(l, kids) && p in kids
    ensures Distinct(RingOf(kids, p))
  {
    assert Owned(l, kids, p);
    if p == NIL {
      PushMembers(kids[p], ROOT);
    }
  }

  // Lists of different owners have no node in common.
  lemma RingsApart(l: Links, kids: Kids, p: nat, q: nat, x: nat)
    requires Keyed(l, kids) && AllOwned(l, kids) && p in kids && q in kids && p != q
    requires x in RingOf(kids, p)
    ensures x !in RingOf(kids, q)
  {
    assert Owned(l, kids, p) && Owned(l, kids, q);
  }

  // Relinking inside the list of p, or of a loose node, leaves the list of q as it is.
  lemma OtherRingKept(l: Links, m: Links, kids: Kids, loose: set<nat>, p: nat, q: nat, touched: set<nat>)
    requires Keyed(l, kids) && AllOwned(l, kids) && AllRings(l, kids) && LooseOk(kids, loose)
    requires p in kids && q in kids && p != q
    requires |m.nodes| >= |l.nodes|
    requires forall x :: x in touched ==> x in RingOf(kids, p) || x in loose
    requires forall x :: l.Has(x) && x !in touched ==> m.At(x).next == l.At(x).next && m.At(x).prev == l.At(x).prev
    ensures Ring(m, RingOf(kids, q))
  {
    assert Ring(l, RingOf(kids, q));
    forall x | x in RingOf(kids, q)
      ensures l.Has(x) && x !in touched
    {
      RingHas(l, RingOf(kids, q), x);
      if x in RingOf(kids, p) {
        RingsApart(l, kids, p, q, x);
      }
    }
    RingFrame(l, m, RingOf(kids, q));
  }

  lemma AllRingsButOne(l: Links, m: Links, kids: Kids, loose: set<nat>, p: nat, t: seq<nat>, touched: set<nat>)
    requires Keyed(l, kids) && AllOwned(l, kids) && AllRings(l, kids) && LooseOk(kids, loose)
    requires p in kids && Ring(m, RingOf(kids[p := t], p))
    requires |m.nodes| >= |l.nodes|
    requires forall x :: x in touched ==> x in RingOf(kids, p) || x in loose
    requires forall x :: l.Has(x) && x !in touched ==> m.At(x).next == l.At(x).next && m.At(x).prev == l.At(x).prev
    ensures AllRings(m, kids[p := t])
  {
    var kids' := kids[p := t];
    forall q | q in kids'
      ensures Ring(m, RingOf(kids', q))
    {
      if q != p {
        OtherRingKept(l, m, kids, loose, p, q, touched);
        assert RingOf(kids', q) == RingOf(kids, q);
      }
    }
  }

  // ---- taking a placed node out of its list

  ghost predicate SameSups(l: Links, m: Links) {
    && |m.nodes| == |l.nodes|
    && forall y: nat :: y < |l.nodes| ==> m.nodes[y].sup == l.nodes[y].sup
  }

  lemma DetachKids(l: Links, m: Links, kids: Kids, loose: set<nat>, x: nat, p: nat, i: nat)
    requires Keyed(l, kids) && AllOwned(l, kids) && AllPlaced(l, kids, loose) && LooseOk(kids, loose)
    requires x in kids && x != NIL && p in kids && i < |kids[p]| && kids[p][i] == x && l.At(x).sup == p
    requires SameSups(l, m)
    ensures var kids' := kids[p := Without(kids[p], i)];
            Keyed(m, kids') && AllOwned(m, kids') && AllPlaced(m, kids', loose + {x}) && LooseOk(kids', loose + {x})
  {
    var kids' := kids[p := Without(kids[p], i)];
    assert Owned(l, kids, p);
    WithoutMembers(kids[p], i);
    forall q | q in kids'
      ensures Owned(m, kids', q) && x !in kids'[q]
    {
      assert Owned(l, kids, q);
    }
    forall y | y in kids' && y != NIL && y !in loose + {x}
      ensures Placed(m, kids', y)
    {
      assert Placed(l, kids, y);
    }
  }

  lemma RingOfWithout(kids: Kids, p: nat, i: nat)
    requires p in kids && i < |kids[p]|
    ensures var j := if p == NIL then i + 1 else i;
            RingOf(kids, p)[j] == kids[p][i] && RingOf(kids[p := Without(kids[p], i)], p) == Without(RingOf(kids, p), j)
  {
  }

  lemma UnlinkFromRing(l: Links, s: seq<nat>, j: nat)
    requires Ring(l, s) && Distinct(s) && j < |s|
    ensures var x := s[j];
            && l.Has(x) && l.Has(l.At(x).prev) && l.Has(l.At(x).next)
            && l.At(x).prev in s && l.At(x).next in s
            && Ring(l.Unlink(x), Without(s, j))
  {
    RingUnlink(l, s, j);
    RingNeighbours(l, s, j);
  }

  lemma DetachOwnRing(l: Links, kids: Kids, x: nat, p: nat, i: nat)
    requires Keyed(l, kids) && AllOwned(l, kids) && AllRings(l, kids)
    requires p in kids && i < |kids[p]| && kids[p][i] == x
    ensures l.Has(x) && l.Has(l.At(x).prev) && l.Has(l.At(x).next)
    ensures l.At(x).prev in RingOf(kids, p) && l.At(x).next in RingOf(kids, p)
    ensures Ring(l.Unlink(x), RingOf(kids[p := Without(kids[p], i)], p))
  {
    RingOfDistinct(l, kids, p);
    RingOfWithout(kids, p, i);
    assert Ring(l, RingOf(kids, p));
    UnlinkFromRing(l, RingOf(kids, p), if p == NIL then i + 1 else i);
  }

  lemma UnlinkFrame(l: Links, x: nat)
    requires l.Has(x) && l.Has(l.At(x).prev) && l.Has(l.At(x).next)
    ensures var m := l.Unlink(x);
            && |m.nodes| == |l.nodes|
            && forall y :: l.Has(y) && y !in {l.At(x).prev, l.At(x).next} ==>
                 m.At(y).next == l.At(y).next && m.At(y).prev == l.At(y).prev
  {
  }

  lemma DetachRings(l: Links, kids: Kids, loose: set<nat>, x: nat, p: nat, i: nat)
    requires Shape(l, kids, loose)
    requires p in kids && i < |kids[p]| && kids[p][i] == x
    ensures l.Has(x) && l.Has(l.At(x).prev) && l.Has(l.At(x).next)
    ensures AllRings(l.Unlink(x), kids[p := Without(kids[p], i)])
  {
    hide Ring, AllOwned, AllRings, AllPlaced, LooseOk, Links.Unlink;
    DetachOwnRing(l, kids, x, p, i);
    UnlinkFrame(l, x);
    AllRingsButOne(l, l.Unlink(x), kids, loose, p, Without(kids[p], i), {l.At(x).prev, l.At(x).next});
  }

  lemma Detach(l: Links, kids: Kids, loose: set<nat>, x: nat, p: nat, i: nat)
    requires Shape(l, kids, loose)
    requires p in kids && i < |kids[p]| && kids[p][i] == x
    ensures l.Has(x) && l.Has(l.At(x).prev) && l.Has(l.At(x).next)
    ensures Shape(l.Unlink(x), kids[p := Without(kids[p], i)], loose + {x})
  {
    assert Owned(l, kids, p);
    DetachRings(l, kids, loose, x, p, i);
    DetachKids(l, l.Unlink(x), kids, loose, x, p, i);
  }

  // ---- linking a loose node into the list of q

  lemma AttachKids(l: Links, m: Links, kids: Kids, loose: set<nat>, q: nat, x: nat, t: seq<nat>)
    requires Keyed(l, kids) && AllOwned(l, kids) && AllPlaced(l, kids, loose) && LooseOk(kids, loose)
    requires x in loose && q in kids && |m.nodes| == |l.nodes| && m.nodes[x].sup == q
    requires forall y :: 0 <= y < |l.nodes| && y != x ==> m.nodes[y].sup == l.nodes[y].sup
    requires Distinct(t) && forall y :: y in t <==> y in kids[q] || y == x
    ensures var kids' := kids[q := t];
            Keyed(m, kids') && AllOwned(m, kids') && AllPlaced(m, kids', loose - {x}) && LooseOk(kids', loose - {x})
  {
    var kids' := kids[q := t];
    forall p | p in kids'
      ensures Owned(m, kids', p)
    {
      assert Owned(l, kids, p);
    }
    forall y | y in kids' && y != NIL && y !in loose - {x}
      ensures Placed(m, kids', y)
    {
      if y != x {
        assert Placed(l, kids, y);
      }
    }
  }

  lemma LinkAfterFrame(l: Links, x: nat, q: nat, p: nat)
    requires l.Has(x) && l.Has(p) && l.Put(x, l.At(x).(sup := q)).Has(l.Put(x, l.At(x).(sup := q)).At(p).next)
    ensures var k := l.Put(x, l.At(x).(sup := q));
            var m := k.LinkAfter(p, x);
            && |m.nodes| == |l.nodes|
            && forall y :: l.Has(y) && y !in {x, p, k.At(p).next} ==>
                 m.At(y).next == l.At(y).next && m.At(y).prev == l.At(y).prev
  {
  }

  lemma LinkAfterSups(l: Links, x: nat, q: nat, p: nat)
    requires x < |l.nodes| <= ROOT && l.Has(p) && l.Put(x, l.At(x).(sup := q)).Has(l.Put(x, l.At(x).(sup := q)).At(p).next)
    ensures var m := l.Put(x, l.At(x).(sup := q)).LinkAfter(p, x);
            && |m.nodes| == |l.nodes| && m.nodes[x].sup == q
            && forall y :: 0 <= y < |l.nodes| && y != x ==> m.nodes[y].sup == l.nodes[y].sup
  {
  }

  lemma AttachOwnRing(l: Links, s: seq<nat>, j: nat, x: nat, q: nat)
    requires Ring(l, s) && Distinct(s) && j < |s| && l.Has(x) && x !in s
    ensures var k := l.Put(x, l.At(x).(sup := q));
            && k.Has(s[j]) && k.Has(k.At(s[j]).next) && k.At(s[j]).next in s
            && Ring(k.LinkAfter(s[j], x), InsertAfter(s, j, x))
  {
    var k := l.Put(x, l.At(x).(sup := q));
    forall y | y in s ensures l.Has(y) && k.Has(y) {
      RingHas(l, s, y);
    }
    RingFrame(l, k, s);
    RingNeighbours(k, s, j);
    RingLinkAfter(k, s, j, x);
  }

  // A list as it is around a loose node.
  lemma AroundLoose(l: Links, kids: Kids, loose: set<nat>, q: nat, x: nat)
    requires Shape(l, kids, loose) && x in loose && q in kids
    ensures Ring(l, RingOf(kids, q)) && Distinct(RingOf(kids, q)) && x !in RingOf(kids, q) && x < |l.nodes| <= ROOT
  {
    hide AllPlaced, Ring, Distinct;
    RingOfDistinct(l, kids, q);
  }

  lemma AttachRings(l: Links, kids: Kids, loose: set<nat>, q: nat, j: nat, x: nat, t: seq<nat>)
    requires Shape(l, kids, loose) && x in loose && q in kids
    requires j < |RingOf(kids, q)|
    requires RingOf(kids[q := t], q) == InsertAfter(RingOf(kids, q), j, x)
    ensures l.Has(x) && l.Put(x, l.At(x).(sup := q)).Has(RingOf(kids, q)[j])
    ensures var s := RingOf(kids, q);
            var k := l.Put(x, l.At(x).(sup := q));
            k.Has(k.At(s[j]).next) && AllRings(k.LinkAfter(s[j], x), kids[q := t])
  {
    hide AllOwned, AllRings, AllPlaced, LooseOk, Ring, RingOf, Distinct, InsertAfter, Links.LinkAfter;
    var s := RingOf(kids, q);
    AroundLoose(l, kids, loose, q, x);
    AttachOwnRing(l, s, j, x, q);
    LinkAfterFrame(l, x, q, s[j]);
    var k := l.Put(x, l.At(x).(sup := q));
    AllRingsButOne(l, k.LinkAfter(s[j], x), kids, loose, q, t, {x, s[j], k.At(s[j]).next});
  }

  // A loose node becomes the first root.
  lemma AttachRoot(l: Links, kids: Kids, loose: set<nat>, x: nat)
    requires Shape(l, kids, loose) && x in loose
    ensures l.Has(x) && l.Has(l.root.next)
    ensures Shape(l.Put(x, l.At(x).(sup := NIL)).LinkAfter(ROOT, x), kids[NIL := [x] + kids[NIL]], loose - {x})
  {
    var k := l.Put(x, l.At(x).(sup := NIL));
    var t := [x] + kids[NIL];
    assert Owned(l, kids, NIL);
    PushMembers(kids[NIL], x);
    var s := RingOf(kids, NIL);
    assert Ring(l, s);
    RingNeighbours(l, s, 0);
    assert InsertAfter(s, 0, x) == [ROOT] + t;
    AttachRings(l, kids, loose, NIL, 0, x, t);
    AttachKids(l, k.LinkAfter(ROOT, x), kids, loose, NIL, x, t);
  }

  // A loose node becomes a further child of q, next to its i-th child.
  lemma AttachChild(l: Links, kids: Kids, loose: set<nat>, q: nat, i: nat, x: nat)
    requires Shape(l, kids, loose) && x in loose && q in kids && q != NIL && i < |kids[q]|
    ensures l.Has(x) && l.Put(x, l.At(x).(sup := q)).Has(kids[q][i])
    ensures var k := l.Put(x, l.At(x).(sup := q));
            k.Has(k.At(kids[q][i]).next) &&
            Shape(k.LinkAfter(kids[q][i], x), kids[q := InsertAfter(kids[q], i, x)], loose - {x})
  {
    hide AllRings, Ring, Links.LinkAfter, AllPlaced, InsertAfter;
    var k := l.Put(x, l.At(x).(sup := q));
    var t := InsertAfter(kids[q], i, x);
    assert Owned(l, kids, q);
    InsertAfterMembers(kids[q], i, x);
    AttachRings(l, kids, loose, q, i, x, t);
    LinkAfterSups(l, x, q, kids[q][i]);
    AttachKids(l, k.LinkAfter(kids[q][i], x), kids, loose, q, x, t);
  }

  // A loose node becomes the only child of a childless node.
  lemma AttachOnly(l: Links, kids: Kids, loose: set<nat>, q: nat, x: nat)
    requires Shape(l, kids, loose) && x in loose && q in kids && q != NIL && kids[q] == []
    ensures l.Has(x)
    ensures Shape(l.Put(x, l.At(x).(sup := q, next := x, prev := x)), kids[q := [x]], loose - {x})
  {
    var m := l.Put(x, l.At(x).(sup := q, next := x, prev := x));
    var kids' := kids[q := [x]];
    AttachKids(l, m, kids, loose, q, x, [x]);
    AllRingsButOne(l, m, kids, loose, q, [x], {x});
  }

  // ---- entering and leaving the family

  // Dropping a loose node leaves its children loose.
  lemma Shatter(l: Links, kids: Kids, loose: set<nat>, x: nat)
    requires Shape(l, kids, loose) && x in loose
    ensures Shape(l, kids - {x}, loose - {x} + (set c | c in kids[x]))
  {
    var kids' := kids - {x};
    var loose' := loose - {x} + (set c | c in kids[x]);
    assert Owned(l, kids, x);
    forall p | p in kids'
      ensures Owned(l, kids', p)
    {
      assert Owned(l, kids, p);
    }
    forall p | p in kids'
      ensures Ring(l, RingOf(kids', p))
    {
      assert Ring(l, RingOf(kids, p));
    }
    forall y | y in kids' && y != NIL && y !in loose'
      ensures Placed(l, kids', y)
    {
      assert Placed(l, kids, y);
    }
    forall y, p | y in loose' && p in kids'
      ensures y !in kids'[p]
    {
      assert Owned(l, kids, p);
    }
  }

  // The lists depend on the links and the parents only.
  lemma ShapeFrame(l: Links, m: Links, kids: Kids, loose: set<nat>)
    requires Shape(l, kids, loose) && SameSups(l, m)
    requires forall x :: l.Has(x) ==> m.At(x).next == l.At(x).next && m.At(x).prev == l.At(x).prev
    ensures Shape(m, kids, loose)
  {
    forall p | p in kids
      ensures Owned(m, kids, p)
    {
      assert Owned(l, kids, p);
    }
    forall p | p in kids
      ensures Ring(m, RingOf(kids, p))
    {
      assert Ring(l, RingOf(kids, p));
      forall x | x in RingOf(kids, p)
        ensures l.Has(x)
      {
        RingHas(l, RingOf(kids, p), x);
      }
      RingFrame(l, m, RingOf(kids, p));
    }
    forall y | y in kids && y != NIL && y !in loose
      ensures Placed(m, kids, y)
    {
      assert Placed(l, kids, y);
    }
  }

  // m is l with room for node x, whose own fields may differ.
  ghost predicate Extends(l: Links, m: Links, x: nat) {
    && x < |m.nodes| && |l.nodes| <= |m.nodes| <= ROOT && m.root == l.root
    && forall y :: 0 <= y < |l.nodes| && y != x ==> m.nodes[y] == l.nodes[y]
  }

  lemma EnterOwned(l: Links, m: Links, kids: Kids, x: nat, p: nat)
    requires Keyed(l, kids) && AllOwned(l, kids) && x !in kids && Extends(l, m, x) && p in kids
    ensures Keyed(m, kids[x := []]) && Owned(m, kids[x := []], p) && x !in kids[p]
  {
    hide Distinct;
    assert Owned(l, kids, p);
  }

  lemma EnterRing(l: Links, m: Links, kids: Kids, x: nat, p: nat)
    requires Keyed(l, kids) && AllOwned(l, kids) && AllRings(l, kids) && x !in kids && Extends(l, m, x) && p in kids
    ensures Ring(m, RingOf(kids, p))
  {
    assert Ring(l, RingOf(kids, p)) && Owned(l, kids, p);
    forall y | y in RingOf(kids, p)
      ensures l.Has(y) && y != x
    {
      RingHas(l, RingOf(kids, p), y);
    }
    RingFrame(l, m, RingOf(kids, p));
  }

  lemma EmptyRing(l: Links)
    ensures Ring(l, []) && Distinct([])
  {
  }

  // A new node enters loose and childless; only its own fields may differ.
  lemma Enter(l: Links, m: Links, kids: Kids, x: nat)
    requires Shape(l, kids, {}) && x !in kids && Extends(l, m, x)
    ensures Shape(m, kids[x := []], {x})
  {
    hide Ring, Distinct, Placed, Extends;
    EnterLists(l, m, kids, x);
    EnterPlaced(l, m, kids, x);
  }

  lemma EnterLists(l: Links, m: Links, kids: Kids, x: nat)
    requires Keyed(l, kids) && AllOwned(l, kids) && AllRings(l, kids) && x !in kids && x != NIL && Extends(l, m, x)
    ensures Keyed(m, kids[x := []]) && AllOwned(m, kids[x := []]) && AllRings(m, kids[x := []])
    ensures forall p :: p in kids ==> x !in kids[p]
  {
    hide Ring, Distinct, Extends;
    var kids' := kids[x := []];
    EmptyRing(m);
    assert NIL in kids;
    EnterOwned(l, m, kids, x, NIL);
    forall p | p in kids'
      ensures Owned(m, kids', p) && x !in kids'[p] && Ring(m, RingOf(kids', p))
    {
      if p != x {
        EnterOwned(l, m, kids, x, p);
        EnterRing(l, m, kids, x, p);
        assert RingOf(kids', p) == RingOf(kids, p);
      }
    }
  }

  lemma EnterPlaced(l: Links, m: Links, kids: Kids, x: nat)
    requires Keyed(l, kids) && AllPlaced(l, kids, {}) && x !in kids && Extends(l, m, x) && Keyed(m, kids[x := []])
    ensures AllPlaced(m, kids[x := []], {x})
  {
    var kids' := kids[x := []];
    forall y | y in kids' && y != NIL && y !in {x}
      ensures Placed(m, kids', y)
    {
      assert Placed(l, kids, y);
    }
  }
}

// The node store of the Fibonacci heap: nodes linked by index into circular
// doubly linked lists, and what linking and unlinking do to those lists.
module FibLinks {
  import opened Basics

  const NIL: nat := 0xFFFF_FFFF    // no parent, no child
  const ROOT: nat := 0xFFFF_FFFE   // index standing for the list head of the root list

  datatype FibNode = FibNode(sup: nat, next: nat, prev: nat, sub: nat, nSub: nat, isMarked: bool)

  datatype Links = Links(root: FibNode, nodes: seq<FibNode>) {
    predicate Has(i: nat) {
      i == ROOT || i < |nodes|
    }

    function At(i: nat): FibNode
      requires Has(i)
    {
      if i == ROOT then root else nodes[i]
    }

    function Put(i: nat, n: FibNode): Links
      requires Has(i)
    {
      if i == ROOT then Links(n, nodes) else Links(root, nodes[i := n])
    }

    // Insert x after p.
    function LinkAfter(p: nat, x: nat): Links
      requires Has(p) && Has(x) && Has(At(p).next)
    {
      var n := At(p).next;
      var a := Put(p, At(p).(next := x));
      var b := a.Put(x, a.At(x).(prev := p, next := n));
      b.Put(n, b.At(n).(prev := x))
    }

    // Take x out of its list; x keeps its own stale links.
    function Unlink(x: nat): Links
      requires Has(x) && Has(At(x).prev) && Has(At(x).next)
    {
      var p, n := At(x).prev, At(x).next;
      var a := Put(p, At(p).(next := n));
      a.Put(n, a.At(n).(prev := p))
    }
  }

  ghost predicate Linked(l: Links, a: nat, b: nat) {
    l.Has(a) && l.Has(b) && l.At(a).next == b && l.At(b).prev == a
  }

  function Succ(k: nat, n: nat): nat {
    if k + 1 == n then 0 else k + 1
  }

  // s lists, in order, the members of one circular doubly linked list.
  ghost predicate Ring(l: Links, s: seq<nat>) {
    forall k {:trigger Succ(k, |s|)} :: 0 <= k < |s| ==> Linked(l, s[k], s[Succ(k, |s|)])
  }

  lemma RingFrame(l: Links, m: Links, s: seq<nat>)
    requires Ring(l, s)
    requires forall x :: x in s ==> m.Has(x)
    requires forall x :: x in s && l.Has(x) ==> m.At(x).next == l.At(x).next && m.At(x).prev == l.At(x).prev
    ensures Ring(m, s)
  {
    forall k {:trigger Succ(k, |s|)} | 0 <= k < |s|
      ensures Linked(m, s[k], s[Succ(k, |s|)])
    {
      assert Linked(l, s[k], s[Succ(k, |s|)]);
    }
  }

  // The neighbours of a member are members.
  lemma RingNeighbours(l: Links, s: seq<nat>, i: nat)
    requires Ring(l, s) && i < |s|
    ensures l.Has(s[i]) && l.At(s[i]).next == s[Succ(i, |s|)]
    ensures l.At(s[i]).prev == s[if i == 0 then |s| - 1 else i - 1]
    ensures l.Has(l.At(s[i]).next) && l.Has(l.At(s[i]).prev)
  {
    assert Linked(l, s[i], s[Succ(i, |s|)]);
    var j := if i == 0 then |s| - 1 else i - 1;
    assert Succ(j, |s|) == i;
    assert Linked(l, s[j], s[Succ(j, |s|)]);
  }

  // The links that unlinking x changes.
  lemma UnlinkFields(l: Links, x: nat)
    requires l.Has(x) && l.Has(l.At(x).prev) && l.Has(l.At(x).next)
    ensures forall y :: l.Has(y) ==>
              && l.Unlink(x).Has(y)
              && l.Unlink(x).At(y).next == (if y == l.At(x).prev then l.At(x).next else l.At(y).next)
              && l.Unlink(x).At(y).prev == (if y == l.At(x).next then l.At(x).prev else l.At(y).prev)
  {
  }

  lemma RingUnlink(l: Links, s: seq<nat>, i: nat)
    requires Ring(l, s) && Distinct(s) && i < |s|
    ensures l.Has(s[i]) && l.Has(l.At(s[i]).prev) && l.Has(l.At(s[i]).next)
    ensures Ring(l.Unlink(s[i]), Without(s, i))
  {
    hide Links.Unlink;
    RingNeighbours(l, s, i);
    UnlinkFields(l, s[i]);
    var n := |s|;
    var t := Without(s, i);
    var m := l.Unlink(s[i]);
    forall k {:trigger Succ(k, |t|)} | 0 <= k < |t|
      ensures Linked(m, t[k], t[Succ(k, |t|)])
    {
      var k0 := if k < i then k else k + 1;
      var j := Succ(k, |t|);
      var j0 := if j < i then j else j + 1;
      assert t[k] == s[k0] && t[j] == s[j0];
      assert Linked(l, s[k0], s[Succ(k0, n)]);
      assert Linked(l, s[i], s[Succ(i, n)]);
    }
  }

  // The links that linking x after p changes.
  lemma LinkAfterLinks(l: Links, p: nat, x: nat)
    requires l.Has(p) && l.Has(x) && l.Has(l.At(p).next) && x != p && x != l.At(p).next
    ensures forall y :: l.Has(y) ==>
              && l.LinkAfter(p, x).Has(y)
              && l.LinkAfter(p, x).At(y).next == (if y == p then x else if y == x then l.At(p).next else l.At(y).next)
              && l.LinkAfter(p, x).At(y).prev == (if y == l.At(p).next then x else if y == x then p else l.At(y).prev)
  {
  }

  // Behind the i-th member and x, every pair of neighbours is one of the old list.
  lemma OtherNeighbours(s: seq<nat>, i: nat, x: nat, k: nat)
    requires i < |s| && k <= |s| && k != i && k != i + 1
    ensures var t, k0 := InsertAfter(s, i, x), if k < i then k else k - 1;
            |t| == |s| + 1 && k0 < |s| && k0 != i && t[k] == s[k0] && t[Succ(k, |t|)] == s[Succ(k0, |s|)]
  {
  }

  lemma NewNeighbours(s: seq<nat>, i: nat, x: nat)
    requires i < |s|
    ensures var t := InsertAfter(s, i, x);
            && |t| == |s| + 1 && t[i] == s[i] && t[Succ(i, |t|)] == x && t[i + 1] == x
            && t[Succ(i + 1, |t|)] == s[Succ(i, |s|)]
  {
  }

  lemma RingLinkAfter(l: Links, s: seq<nat>, i: nat, x: nat)
    requires Ring(l, s) && Distinct(s) && i < |s|
    requires l.Has(x) && x !in s
    ensures l.Has(s[i]) && l.Has(l.At(s[i]).next)
    ensures Ring(l.LinkAfter(s[i], x), InsertAfter(s, i, x))
  {
    hide InsertAfter, Links.LinkAfter;
    RingNeighbours(l, s, i);
    LinkAfterLinks(l, s[i], x);
    var n := |s|;
    var t := InsertAfter(s, i, x);
    var m := l.LinkAfter(s[i], x);
    NewNeighbours(s, i, x);
    forall k {:trigger Succ(k, |t|)} | 0 <= k < |t|
      ensures Linked(m, t[k], t[Succ(k, |t|)])
    {
      assert Linked(l, s[i], s[Succ(i, n)]);
      if k != i && k != i + 1 {
        OtherNeighbours(s, i, x, k);
        var k0 := if k < i then k else k - 1;
        assert Linked(l, s[k0], s[Succ(k0, n)]);
        assert Succ(k0, n) != Succ(i, n);
      }
    }
  }
}

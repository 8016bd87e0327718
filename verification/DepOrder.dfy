// Ordering hooks by what they depend on.  A Dep is named by its index, which it
// gets when it is added.
module DepOrder {
  import opened Basics

  // deps[i] lists what hook i depends on, antiDeps[i] what depends on it.
  ghost predicate InRange(deps: seq<seq<nat>>) {
    forall i, d :: 0 <= i < |deps| && d in deps[i] ==> d < |deps|
  }

  ghost predicate Edge(deps: seq<seq<nat>>, a: nat, b: nat) {
    a < |deps| && b in deps[a]
  }

  // p walks along dependencies.
  ghost predicate Path(deps: seq<seq<nat>>, p: seq<nat>) {
    forall i :: 0 <= i < |p| - 1 ==> Edge(deps, p[i], p[i + 1])
  }

  ghost predicate Cycle(deps: seq<seq<nat>>, p: seq<nat>) {
    |p| >= 2 && Path(deps, p) && p[0] == p[|p| - 1]
  }

  ghost predicate Acyclic(deps: seq<seq<nat>>) {
    forall p :: !Cycle(deps, p)
  }

  // Whatever is in the order comes after all it depends on.
  ghost predicate Before(deps: seq<seq<nat>>, order: seq<nat>, k: nat)
    requires k < |order|
  {
    order[k] < |deps| && forall d :: d in deps[order[k]] ==> d in order[..k]
  }

  ghost predicate Respects(deps: seq<seq<nat>>, order: seq<nat>) {
    forall k :: 0 <= k < |order| ==> Before(deps, order, k)
  }

  ghost predicate Permutes(order: seq<nat>, n: nat) {
    |order| == n && Distinct(order) && forall i: nat :: i in order <==> i < n
  }

  // Where x is in s.
  function Find(s: seq<nat>, x: nat): (k: nat)
    requires x in s
    ensures k < |s| && s[k] == x
  {
    if s[0] == x then 0 else 1 + Find(s[1..], x)
  }

  // ---- only a graph without cycles has such an order

  lemma {:induction false} PathGoesBack(deps: seq<seq<nat>>, order: seq<nat>, p: seq<nat>, i: nat)
    requires Respects(deps, order) && Distinct(order) && Path(deps, p) && i < |p| && p[0] in order
    ensures p[i] in order && (i > 0 ==> Find(order, p[i]) < Find(order, p[0]))
  {
    if i > 0 {
      PathGoesBack(deps, order, p, i - 1);
      var k := Find(order, p[i - 1]);
      assert Edge(deps, p[i - 1], p[i - 1 + 1]);
      assert Before(deps, order, k);
      assert p[i] in order[..k];
      var j := Find(order[..k], p[i]);
      assert order[j] == p[i] && j < k;
      FindUnique(order, j);
    }
  }

  lemma FindUnique(s: seq<nat>, j: nat)
    requires Distinct(s) && j < |s|
    ensures Find(s, s[j]) == j
  {
  }

  lemma RespectsMeansAcyclic(deps: seq<seq<nat>>, order: seq<nat>)
    requires Permutes(order, |deps|) && Respects(deps, order)
    ensures Acyclic(deps)
  {
    forall p
      ensures !Cycle(deps, p)
    {
      if |p| >= 2 && Path(deps, p) {
        assert Edge(deps, p[0], p[0 + 1]);
        PathGoesBack(deps, order, p, |p| - 1);
      }
    }
  }

  // ---- a walk that closes on itself is a cycle

  lemma Closing(deps: seq<seq<nat>>, stack: seq<nat>, k: nat, d: nat)
    requires Path(deps, stack) && k < |stack| && d == stack[k] && Edge(deps, stack[|stack| - 1], d)
    ensures !Acyclic(deps)
  {
    var p := stack[k..] + [d];
    forall i | 0 <= i < |p| - 1
      ensures Edge(deps, p[i], p[i + 1])
    {
      if i < |p| - 2 {
        assert Edge(deps, stack[k + i], stack[k + i + 1]);
      }
    }
    assert Cycle(deps, p);
  }

  lemma PathMore(deps: seq<seq<nat>>, stack: seq<nat>, h: nat)
    requires Path(deps, stack) && (stack != [] ==> Edge(deps, stack[|stack| - 1], h))
    ensures Path(deps, stack + [h])
  {
    var p := stack + [h];
    forall i | 0 <= i < |p| - 1
      ensures Edge(deps, p[i], p[i + 1])
    {
      if i < |stack| - 1 {
        assert Edge(deps, stack[i], stack[i + 1]);
      }
    }
  }

  lemma RespectsMore(deps: seq<seq<nat>>, order: seq<nat>, h: nat)
    requires Respects(deps, order) && h < |deps| && forall d :: d in deps[h] ==> d in order
    ensures Respects(deps, order + [h])
  {
    var more := order + [h];
    forall k | 0 <= k < |more|
      ensures Before(deps, more, k)
    {
      assert more[..k] == order[..k];
      if k < |order| {
        assert Before(deps, order, k);
      }
    }
  }

  // ---- hooks that do not depend on each other keep their turn

  // b is a itself or something a depends on, directly or not.
  ghost predicate Reaches(deps: seq<seq<nat>>, a: nat, b: nat) {
    exists p :: Path(deps, p) && |p| > 0 && p[0] == a && p[|p| - 1] == b
  }

  lemma ReachesSelf(deps: seq<seq<nat>>, a: nat)
    ensures Reaches(deps, a, a)
  {
    assert Path(deps, [a]);
  }

  lemma ReachesMore(deps: seq<seq<nat>>, a: nat, b: nat, c: nat)
    requires Edge(deps, a, b) && Reaches(deps, b, c)
    ensures Reaches(deps, a, c)
  {
    var p :| Path(deps, p) && |p| > 0 && p[0] == b && p[|p| - 1] == c;
    var q := [a] + p;
    forall i | 0 <= i < |q| - 1
      ensures Edge(deps, q[i], q[i + 1])
    {
      if i > 0 {
        assert Edge(deps, p[i - 1], p[i - 1 + 1]);
      }
    }
    assert Path(deps, q);
  }

  // x is reached from one of the first n of the list.
  ghost predicate FromFirst(deps: seq<seq<nat>>, list: seq<nat>, n: nat, x: nat) {
    exists c :: 0 <= c < n && c < |list| && Reaches(deps, list[c], x)
  }

  // In the order from e on, what comes before a member of the list is reached from
  // that member or from one before it in the list.
  ghost predicate InTurn(deps: seq<seq<nat>>, list: seq<nat>, e: nat, order: seq<nat>) {
    forall p, q, m :: e <= p < q < |order| && 0 <= m < |list| && list[m] == order[q] ==>
                        FromFirst(deps, list, m + 1, order[p])
  }

  ghost predicate AllFromFirst(deps: seq<seq<nat>>, list: seq<nat>, n: nat, e: nat, order: seq<nat>) {
    forall k :: e <= k < |order| ==> FromFirst(deps, list, n, order[k])
  }

  // order' continues order by what the i-th of the list reaches.
  ghost predicate Extends(deps: seq<seq<nat>>, h: nat, order: seq<nat>, order': seq<nat>) {
    |order| <= |order'| && order'[..|order|] == order && forall k :: |order| <= k < |order'| ==> Reaches(deps, h, order'[k])
  }

  lemma NextInTurn(deps: seq<seq<nat>>, list: seq<nat>, e: nat, order: seq<nat>, order': seq<nat>, i: nat)
    requires InTurn(deps, list, e, order) && AllFromFirst(deps, list, i, e, order) && i < |list| && e <= |order|
    requires Extends(deps, list[i], order, order') && Distinct(order')
    requires forall j :: 0 <= j < i ==> list[j] in order || list[j] !in order'
    ensures InTurn(deps, list, e, order') && AllFromFirst(deps, list, i + 1, e, order')
  {
    hide Reaches;
    forall k | 0 <= k < |order|
      ensures order'[k] == order[k]
    {
      assert order'[..|order|][k] == order[k];
    }
    forall p, q, m | e <= p < q < |order'| && 0 <= m < |list| && list[m] == order'[q]
      ensures FromFirst(deps, list, m + 1, order'[p])
    {
      if q < |order| {
        assert list[m] == order[q];
      } else {
        assert order'[q] !in order;
        assert m >= i;
      }
    }
  }

  lemma ExtendsTwice(deps: seq<seq<nat>>, h: nat, d: nat, o: seq<nat>, o1: seq<nat>, o2: seq<nat>)
    requires Extends(deps, h, o, o1) && Extends(deps, d, o1, o2) && Edge(deps, h, d)
    ensures Extends(deps, h, o, o2)
  {
    hide Reaches, Edge;
    assert o2[..|o|] == o2[..|o1|][..|o|];
    forall k | |o| <= k < |o2|
      ensures Reaches(deps, h, o2[k])
    {
      if k < |o1| {
        assert o2[k] == o2[..|o1|][k];
      } else {
        ReachesMore(deps, h, d, o2[k]);
      }
    }
  }

  // Whatever comes before a in the order is reached from a or from a hook that the
  // user ranks no later than a.
  lemma UserOrderKept(deps: seq<seq<nat>>, perm: seq<nat>, order: seq<nat>, rank: seq<int>, p: nat, q: nat)
    requires Permutes(perm, |rank|) && Permutes(order, |rank|) && InTurn(deps, perm, 0, order) && p < q < |order|
    requires order[p] < |rank| && order[q] < |rank|
    requires forall i, j :: 0 <= i <= j < |perm| && perm[i] < |rank| && perm[j] < |rank| ==> rank[perm[i]] <= rank[perm[j]]
    ensures exists c: nat :: c < |rank| && rank[c] <= rank[order[q]] && Reaches(deps, c, order[p])
  {
    hide Reaches;
    assert order[q] in order;
    var m := Find(perm, order[q]);
    assert FromFirst(deps, perm, m + 1, order[p]);
    var c :| 0 <= c < m + 1 && c < |perm| && Reaches(deps, perm[c], order[p]);
    assert perm[c] in perm;
  }

  // Without dependencies the order is the user's.
  lemma NoDepsNoMoves(deps: seq<seq<nat>>, perm: seq<nat>, order: seq<nat>)
    requires Permutes(perm, |deps|) && Permutes(order, |deps|) && InTurn(deps, perm, 0, order)
    requires forall i :: 0 <= i < |deps| ==> deps[i] == []
    ensures order == perm
  {
    forall p, q | 0 <= p < q < |order|
      ensures order[p] in perm && order[q] in perm && Find(perm, order[p]) < Find(perm, order[q])
    {
      assert order[p] in order && order[q] in order;
      var m := Find(perm, order[q]);
      assert FromFirst(deps, perm, m + 1, order[p]);
      var c :| 0 <= c < m + 1 && c < |perm| && Reaches(deps, perm[c], order[p]);
      NoDepsReach(deps, perm[c], order[p]);
      FindUnique(perm, c);
    }
    Ascending(perm, order);
  }

  lemma NoDepsReach(deps: seq<seq<nat>>, a: nat, b: nat)
    requires Reaches(deps, a, b) && forall i :: 0 <= i < |deps| ==> deps[i] == []
    ensures a == b
  {
    var p :| Path(deps, p) && |p| > 0 && p[0] == a && p[|p| - 1] == b;
    assert |p| > 1 ==> Edge(deps, p[0], p[0 + 1]);
  }

  lemma Ascending(perm: seq<nat>, order: seq<nat>)
    requires |perm| == |order| && forall x :: x in order ==> x in perm
    requires forall p, q :: 0 <= p < q < |order| ==> Find(perm, order[p]) < Find(perm, order[q])
    ensures order == perm
  {
    forall k | 0 <= k < |order|
      ensures order[k] == perm[k]
    {
      AtLeast(perm, order, k);
      AtMost(perm, order, k);
    }
  }

  lemma {:induction false} AtLeast(perm: seq<nat>, order: seq<nat>, k: nat)
    requires |perm| == |order| && k < |order| && forall x :: x in order ==> x in perm
    requires forall p, q :: 0 <= p < q < |order| ==> Find(perm, order[p]) < Find(perm, order[q])
    ensures Find(perm, order[k]) >= k
  {
    if k > 0 {
      AtLeast(perm, order, k - 1);
      assert Find(perm, order[k - 1]) < Find(perm, order[k]);
    }
  }

  lemma {:induction false} AtMost(perm: seq<nat>, order: seq<nat>, k: nat)
    requires |perm| == |order| && k < |order| && forall x :: x in order ==> x in perm
    requires forall p, q :: 0 <= p < q < |order| ==> Find(perm, order[p]) < Find(perm, order[q])
    ensures Find(perm, order[k]) <= k
    decreases |order| - k
  {
    if k + 1 < |order| {
      AtMost(perm, order, k + 1);
      assert Find(perm, order[k]) < Find(perm, order[k + 1]);
    }
  }

  // ---- the hooks

  // The walk so far: b holds what is in the order and what is on the stack.
  ghost predicate Walk(deps: seq<seq<nat>>, order: seq<nat>, stack: seq<nat>, b: set<nat>) {
    && Distinct(order) && Path(deps, stack)
    && (forall i :: i in order || i in stack <==> i in b)
    && (forall i :: i in order ==> i !in stack)
    && (forall i :: i in b ==> i < |deps|)
    && (Acyclic(deps) ==> Respects(deps, order))
  }

  lemma ExtendsStart(deps: seq<seq<nat>>, h: nat, list: seq<nat>, o: seq<nat>)
    ensures Extends(deps, h, o, o) && InTurn(deps, list, |o|, o) && AllFromFirst(deps, list, 0, |o|, o)
  {
  }

  // The next of the list has been walked.
  lemma TurnDone(deps: seq<seq<nat>>, list: seq<nat>, e: nat, o: seq<nat>, order: seq<nat>, stack: seq<nat>,
                 b: set<nat>, b': set<nat>, i: nat)
    requires Walk(deps, o, stack, b) && Walk(deps, order, stack, b') && i < |list| && e <= |o|
    requires Extends(deps, list[i], o, order) && InTurn(deps, list, e, o) && AllFromFirst(deps, list, i, e, o)
    requires forall j :: 0 <= j < i ==> list[j] in b
    ensures InTurn(deps, list, e, order) && AllFromFirst(deps, list, i + 1, e, order) && e <= |order|
  {
    hide InTurn, AllFromFirst, Path, Respects, Acyclic;
    assert |o| <= |order|;
    NextInTurn(deps, list, e, o, order, i);
  }

  // The first i of h's list have been walked, since h was entered with order o.
  ghost predicate Midway(deps: seq<seq<nat>>, h: nat, i: nat, o: seq<nat>, order: seq<nat>, stack: seq<nat>,
                         b: set<nat>, b': set<nat>) {
    && h < |deps| && i <= |deps[h]| && |o| <= |order| && Walk(deps, order, stack, b') && b + {h} <= b'
    && (forall j :: 0 <= j < i ==> deps[h][j] in b')
    && Extends(deps, h, o, order) && InTurn(deps, deps[h], |o|, order) && AllFromFirst(deps, deps[h], i, |o|, order)
  }

  lemma MidwayStart(deps: seq<seq<nat>>, h: nat, o: seq<nat>, stack: seq<nat>, b: set<nat>)
    requires h < |deps| && Walk(deps, o, stack, b) && h !in b && (stack != [] ==> Edge(deps, stack[|stack| - 1], h))
    ensures Midway(deps, h, 0, o, o, stack + [h], b, b + {h}) && Path(deps, stack) && h !in stack
  {
    hide Walk, Extends, InTurn, AllFromFirst;
    Entered(deps, o, stack, b, h);
    ExtendsStart(deps, h, deps[h], o);
  }

  // The next of h's list may be walked.
  lemma MidwayWalk(deps: seq<seq<nat>>, h: nat, i: nat, o: seq<nat>, order: seq<nat>, stack: seq<nat>, b: set<nat>, b': set<nat>)
    requires h < |deps| && InRange(deps) && Midway(deps, h, i, o, order, stack + [h], b, b') && i < |deps[h]| && h !in b
    ensures Walk(deps, order, stack + [h], b') && deps[h][i] < |deps| && (stack + [h])[|stack + [h]| - 1] == h
    ensures stack + [h] != [] && Edge(deps, h, deps[h][i])
    ensures |Upto(|deps|) - b'| < |Upto(|deps|) - b|
  {
    hide Walk, Extends, InTurn, AllFromFirst;
    EdgeFrom(deps, h, i);
    Smaller(Upto(|deps|), b, h);
    Subset(Upto(|deps|), b + {h}, b');
  }

  lemma MidwayStep(deps: seq<seq<nat>>, h: nat, i: nat, o: seq<nat>, o1: seq<nat>, order: seq<nat>, stack: seq<nat>,
                   b: set<nat>, b1: set<nat>, b': set<nat>)
    requires Midway(deps, h, i, o, o1, stack, b, b1) && i < |deps[h]| && Edge(deps, h, deps[h][i])
    requires Walk(deps, order, stack, b') && b1 <= b' && deps[h][i] in b' && Extends(deps, deps[h][i], o1, order)
    ensures Midway(deps, h, i + 1, o, order, stack, b, b')
  {
    hide Walk, Extends, InTurn, AllFromFirst, Edge;
    ExtendsTwice(deps, h, deps[h][i], o, o1, order);
    TurnDone(deps, deps[h], |o|, o1, order, stack, b1, b', i);
  }

  lemma MidwayEnd(deps: seq<seq<nat>>, h: nat, o: seq<nat>, order: seq<nat>, stack: seq<nat>, b: set<nat>, b': set<nat>)
    requires h < |deps| && Midway(deps, h, |deps[h]|, o, order, stack + [h], b, b') && h !in stack && Path(deps, stack)
    ensures Walk(deps, order + [h], stack, b') && Extends(deps, h, o, order + [h]) && b <= b' && h in b'
    ensures var m := order + [h];
            |m| > |o| && m[|m| - 1] == h && InTurn(deps, deps[h], |o|, m[..|m| - 1])
  {
    hide Walk, Extends, InTurn, AllFromFirst, Path;
    AllDone(deps, order, stack, h, b');
    Appended(deps, h, o, order);
  }

  lemma Appended(deps: seq<seq<nat>>, h: nat, o: seq<nat>, order: seq<nat>)
    requires Extends(deps, h, o, order)
    ensures Extends(deps, h, o, order + [h]) && (order + [h])[..|order|] == order
  {
    ReachesSelf(deps, h);
    assert (order + [h])[..|o|] == order[..|o|];
  }

  class Deps {
    // What the hooks depend on, by index; elts lists the indices as sorted.
    var deps: seq<seq<nat>>
    var antiDeps: seq<seq<nat>>
    var elts: seq<nat>
    var isOrdered: bool
    var order: seq<nat>

    constructor ()
      ensures deps == [] && antiDeps == [] && elts == [] && order == [] && !isOrdered
    {
      deps, antiDeps, elts, isOrdered, order := [], [], [], false, [];
    }

    // A hook gets the next index.  It may name hooks that are added later.
    method Add(d: seq<nat>, a: seq<nat>)
      modifies this
      ensures deps == old(deps) + [d] && antiDeps == old(antiDeps) + [a] && order == old(order)
      ensures elts == old(elts) + [|old(elts)|] && !isOrdered
    {
      elts := elts + [|elts|];
      deps := deps + [d];
      antiDeps := antiDeps + [a];
      isOrdered := false;
    }

    // All hooks were added, and all that they name.
    ghost predicate Complete()
      reads this
    {
      && |antiDeps| == |deps| == |elts| && (forall i :: 0 <= i < |elts| ==> elts[i] == i)
      && InRange(deps) && InRange(antiDeps)
    }

    // Appends h after everything it depends on that is not there yet, which comes in
    // the turn of h's list.
    method OrderHelper(h: nat, b: set<nat>, ghost stack: seq<nat>) returns (b': set<nat>)
      requires InRange(deps) && h < |deps| && Walk(deps, order, stack, b)
      requires stack != [] ==> Edge(deps, stack[|stack| - 1], h)
      modifies this`order
      ensures Walk(deps, order, stack, b') && b <= b' && h in b' && Extends(deps, h, old(order), order)
      ensures h !in b ==> |order| > |old(order)| && order[|order| - 1] == h
                          && InTurn(deps, deps[h], |old(order)|, order[..|order| - 1])
      decreases |Upto(|deps|) - b|
    {
      hide *;
      b' := b;
      ghost var o := order;
      ExtendsStart(deps, h, deps[h], o);
      if h !in b' {
        b' := b' + {h};
        ghost var stack' := stack + [h];
        MidwayStart(deps, h, o, stack, b);
        var i := 0;
        while i < |deps[h]|
          invariant 0 <= i <= |deps[h]| && Midway(deps, h, i, o, order, stack', b, b')
        {
          var d := deps[h][i];
          MidwayWalk(deps, h, i, o, order, stack, b, b');
          ghost var o1, b1 := order, b';
          b' := OrderHelper(d, b', stack');
          MidwayStep(deps, h, i, o, o1, order, stack', b, b1, b');
          i := i + 1;
        }
        MidwayEnd(deps, h, o, order, stack, b, b');
        order := order + [h];
      }
    }

    method AddDeps(s: seq<set<nat>>, i: nat) returns (s': seq<set<nat>>)
      requires i < |s| == |deps|
      ensures s' == s[i := s[i] + Elems(deps[i])]
    {
      s' := s;
      var j := 0;
      assert s[i] + Elems(deps[i][..0]) == s[i];
      while j < |deps[i]|
        invariant 0 <= j <= |deps[i]| && s' == s[i := s[i] + Elems(deps[i][..j])]
      {
        assert deps[i][..j + 1] == deps[i][..j] + [deps[i][j]];
        assert s[i] + Elems(deps[i][..j]) + {deps[i][j]} == s[i] + Elems(deps[i][..j + 1]);
        s' := s'[i := s'[i] + {deps[i][j]}];
        j := j + 1;
      }
      assert deps[i][..j] == deps[i];
    }

    method AddAntiDeps(s: seq<set<nat>>, i: nat) returns (s': seq<set<nat>>)
      requires i < |antiDeps| == |s| && InRange(antiDeps)
      ensures |s'| == |s| && forall x :: 0 <= x < |s| ==> s'[x] == s[x] + if x in antiDeps[i] then {i} else {}
    {
      s' := s;
      var j := 0;
      while j < |antiDeps[i]|
        invariant 0 <= j <= |antiDeps[i]| && |s'| == |s|
        invariant forall x :: 0 <= x < |s| ==> s'[x] == s[x] + if x in antiDeps[i][..j] then {i} else {}
      {
        var x := antiDeps[i][j];
        assert x in antiDeps[i];
        assert antiDeps[i][..j + 1] == antiDeps[i][..j] + [x];
        s' := s'[x := s'[x] + {i}];
        j := j + 1;
      }
      assert antiDeps[i][..j] == antiDeps[i];
    }

    // The indices each hook depends on, by its own list and by the others'.
    method Indices() returns (s: seq<set<nat>>)
      requires Complete()
      ensures |s| == |deps| && forall x, y :: 0 <= x < |s| ==> (y in s[x] <==> Needs(deps, antiDeps, x, y))
    {
      hide InRange;
      s := seq(|deps|, i => {});
      var i := 0;
      while i < |elts|
        invariant 0 <= i <= |elts| && |s| == |deps|
        invariant forall x: nat, y: nat :: x < |s| ==> (y in s[x] <==> NeedsBelow(deps, antiDeps, x, y, i))
      {
        ghost var s0 := s;
        s := AddDeps(s, i);
        ghost var s1 := s;
        s := AddAntiDeps(s, i);
        forall x: nat, y: nat | x < |s|
          ensures y in s[x] <==> NeedsBelow(deps, antiDeps, x, y, i + 1)
        {
          assert y in s0[x] <==> NeedsBelow(deps, antiDeps, x, y, i);
          assert s1[x] == if x == i then s0[x] + Elems(deps[i]) else s0[x];
        }
        i := i + 1;
      }
    }

    // A set of indices as an ascending list.
    method ToSlice(s: set<nat>) returns (r: seq<nat>)
      requires forall y :: y in s ==> y < |elts|
      ensures forall y :: y in r <==> y in s
      ensures forall j, k :: 0 <= j < k < |r| ==> r[j] < r[k]
    {
      r := [];
      var j := 0;
      while j < |elts|
        invariant 0 <= j <= |elts|
        invariant forall y :: y in r <==> y in s && y < j
        invariant forall k, m :: 0 <= k < m < |r| ==> r[k] < r[m]
        invariant forall k :: 0 <= k < |r| ==> r[k] < j
      {
        if j in s {
          r := r + [j];
        }
        j := j + 1;
      }
    }

    // All of what each hook needs goes to its list.
    method Combine()
      requires Complete()
      modifies this`deps
      ensures Combined(old(deps), antiDeps, deps) && InRange(deps) && |deps| == |old(deps)|
    {
      ghost var before := deps;
      var s := Indices();
      forall x, y | 0 <= x < |s| && y in s[x]
        ensures y < |s|
      {
        assert Needs(before, antiDeps, x, y);
      }
      var i := 0;
      while i < |elts|
        invariant 0 <= i <= |elts| && |deps| == |before|
        invariant forall x, y :: 0 <= x < i ==> (y in deps[x] <==> y in s[x])
      {
        var r := ToSlice(s[i]);
        deps := deps[i := r];
        i := i + 1;
      }
    }

    // perm is what sorting the hooks by their own order makes of the list, and
    // whatever it is, the order found is a permutation of all hooks; it respects
    // all dependencies exactly when they have no cycle, and hooks leave their turn
    // in perm only for those that depend on them.
    method Sort(perm: seq<nat>)
      requires Complete() && Permutes(perm, |elts|)
      modifies this`deps, this`elts, this`order
      ensures Combined(old(deps), antiDeps, deps) && Permutes(order, |deps|) && elts == perm && |deps| == |old(deps)|
      ensures (Acyclic(deps) <==> Respects(deps, order)) && InTurn(deps, perm, 0, order)
    {
      hide Walk, Respects, Acyclic, Combined, Upto, InTurn, AllFromFirst, Extends;
      Combine();
      elts := perm;
      order := [];
      var v: set<nat> := {};
      WalkStart(deps);
      ExtendsStart(deps, 0, elts, []);
      ghost var all := deps;
      var i := 0;
      while i < |elts|
        invariant 0 <= i <= |elts| && deps == all && elts == perm && Walk(deps, order, [], v)
        invariant forall j :: 0 <= j < i ==> elts[j] in v
        invariant InTurn(deps, elts, 0, order) && AllFromFirst(deps, elts, i, 0, order)
      {
        assert elts[i] in elts;
        ghost var o, v0 := order, v;
        v := OrderHelper(elts[i], v, []);
        TurnDone(deps, elts, 0, o, order, [], v0, v, i);
        i := i + 1;
      }
      WalkEnd(deps, order, v, elts);
    }

    // Place i of the order, or counted from its end; without hooks, i itself.
    method Index(i: nat, isForward: bool, perm: seq<nat>) returns (r: nat)
      requires elts == [] || i < |elts|
      requires isOrdered ==> |order| == |elts|
      requires !isOrdered ==> Complete() && Permutes(perm, |elts|)
      modifies this
      ensures old(elts) == [] ==> r == i
      ensures old(elts) != [] ==> isOrdered && |order| == |elts| == |old(elts)| && r == order[if isForward then i else |order| - 1 - i]
      ensures !old(isOrdered) && old(elts) != [] ==>
                Combined(old(deps), antiDeps, deps) && Permutes(order, |elts|) && (Acyclic(deps) <==> Respects(deps, order))
                && elts == perm && InTurn(deps, perm, 0, order)
      ensures old(isOrdered) ==> order == old(order)
    {
      hide Respects, Acyclic, Combined, InTurn;
      if elts == [] {
        return i;
      }
      if !isOrdered {
        isOrdered := true;
        Sort(perm);
      }
      r := order[if isForward then i else |order| - 1 - i];
    }
  }

  ghost predicate Combined(deps: seq<seq<nat>>, antiDeps: seq<seq<nat>>, deps': seq<seq<nat>>) {
    |deps'| == |deps| && forall x, y :: 0 <= x < |deps'| ==> (y in deps'[x] <==> Needs(deps, antiDeps, x, y))
  }

  lemma WalkStart(deps: seq<seq<nat>>)
    ensures Walk(deps, [], [], {})
  {
  }

  lemma WalkEnd(deps: seq<seq<nat>>, order: seq<nat>, b: set<nat>, elts: seq<nat>)
    requires Walk(deps, order, [], b) && Permutes(elts, |deps|) && forall j :: 0 <= j < |elts| ==> elts[j] in b
    ensures Permutes(order, |deps|) && (Acyclic(deps) <==> Respects(deps, order))
  {
    forall i: nat | i < |deps|
      ensures i in order
    {
      assert i in elts;
    }
    SameLength(order, elts);
    if Respects(deps, order) {
      RespectsMeansAcyclic(deps, order);
    }
  }

  function Elems(a: seq<nat>): set<nat> {
    set i | i in a
  }

  lemma SameLength(a: seq<nat>, b: seq<nat>)
    requires Distinct(a) && Distinct(b) && forall i :: i in a <==> i in b
    ensures |a| == |b|
  {
    CountDistinct(a);
    CountDistinct(b);
    assert Elems(a) == Elems(b);
  }

  lemma {:induction false} CountDistinct(a: seq<nat>)
    requires Distinct(a)
    ensures |Elems(a)| == |a|
  {
    if a == [] {
      assert Elems(a) == {};
    } else {
      var n := |a| - 1;
      var init, last := a[..n], a[n];
      assert a == init + [last] && last !in init;
      CountDistinct(init);
      assert Elems(a) == Elems(init) + {last};
    }
  }

  // Without cycles every hook comes after what it depends on and before what it
  // is an anti-dependency of.
  lemma OrderIsRight(deps: seq<seq<nat>>, antiDeps: seq<seq<nat>>, deps': seq<seq<nat>>, order: seq<nat>)
    requires Combined(deps, antiDeps, deps') && |antiDeps| == |deps| && InRange(antiDeps)
    requires Permutes(order, |deps|) && Respects(deps', order)
    ensures forall i: nat, d :: i < |deps| && d in deps[i] ==> d in order && i in order && Find(order, d) < Find(order, i)
    ensures forall i: nat, x :: i < |deps| && x in antiDeps[i] ==> x in order && i in order && Find(order, i) < Find(order, x)
  {
    assert forall i: nat, d :: i < |deps| && d in deps[i] ==> Needs(deps, antiDeps, i, d);
    assert forall i: nat, x :: i < |deps| && x in antiDeps[i] ==> Needs(deps, antiDeps, x, i);
    forall x: nat, y: nat | Needs(deps, antiDeps, x, y)
      ensures y in order && x in order && Find(order, y) < Find(order, x)
    {
      var k := Find(order, x);
      assert Before(deps', order, k) && y in deps'[x];
      var j := Find(order[..k], y);
      assert order[j] == y;
      FindUnique(order, j);
    }
  }

  // Hook x needs hook y before it.
  ghost predicate Needs(deps: seq<seq<nat>>, antiDeps: seq<seq<nat>>, x: nat, y: nat) {
    x < |deps| && (y in deps[x] || (y < |antiDeps| && x in antiDeps[y]))
  }

  // ... going by the lists of the first n hooks.
  ghost predicate NeedsBelow(deps: seq<seq<nat>>, antiDeps: seq<seq<nat>>, x: nat, y: nat, n: nat) {
    x < |deps| && ((x < n && y in deps[x]) || (y < n && y < |antiDeps| && x in antiDeps[y]))
  }

  lemma EdgeFrom(deps: seq<seq<nat>>, h: nat, i: nat)
    requires InRange(deps) && h < |deps| && i < |deps[h]|
    ensures Edge(deps, h, deps[h][i]) && deps[h][i] < |deps|
  {
  }

  lemma Entered(deps: seq<seq<nat>>, order: seq<nat>, stack: seq<nat>, b: set<nat>, h: nat)
    requires Walk(deps, order, stack, b) && h < |deps| && h !in b && (stack != [] ==> Edge(deps, stack[|stack| - 1], h))
    ensures Walk(deps, order, stack + [h], b + {h}) && (stack + [h])[|stack|] == h && h !in stack && Path(deps, stack)
  {
    PathMore(deps, stack, h);
  }

  lemma Smaller(all: set<nat>, b: set<nat>, h: nat)
    requires h in all && h !in b
    ensures |all - (b + {h})| < |all - b|
  {
    assert all - b == (all - (b + {h})) + {h};
  }

  lemma Subset(all: set<nat>, b: set<nat>, b': set<nat>)
    requires b <= b'
    ensures |all - b'| <= |all - b|
  {
    assert all - b == (all - b') + (b' * all - b);
  }

  // Once all of its dependencies are known, h can come next.
  lemma AllDone(deps: seq<seq<nat>>, order: seq<nat>, stack: seq<nat>, h: nat, b: set<nat>)
    requires Walk(deps, order, stack + [h], b) && h < |deps|
    requires forall j :: 0 <= j < |deps[h]| ==> deps[h][j] in b
    requires h !in stack && Path(deps, stack)
    ensures Walk(deps, order + [h], stack, b)
  {
    var stack' := stack + [h];
    assert stack'[|stack|] == h;
    assert h in stack' && h !in order;
    assert forall x :: x in order + [h] <==> x in order || x == h;
    if Acyclic(deps) {
      forall d | d in deps[h]
        ensures d in order
      {
        if d in stack' {
          Closing(deps, stack', Find(stack', d), d);
        }
      }
      RespectsMore(deps, order, h);
    }
    forall i | i in b
      ensures i in order + [h] || i in stack
    {
    }
  }
}

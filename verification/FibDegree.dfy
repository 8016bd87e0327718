// Why the degree table of 32 entries is large enough: a node with k children
// heads a subtree of at least Fib(k + 2) nodes.
module FibDegree {
  import opened Basics
  import opened FibLinks
  import opened FibShape

  const MAX_N_SUB := 32
  const FIB_34 := 5702887

  function Fib(n: nat): nat {
    if n < 2 then n else Fib(n - 1) + Fib(n - 2)
  }

  lemma {:induction false} FibMonotone(m: nat, n: nat)
    requires m <= n
    ensures Fib(m) <= Fib(n)
  {
    if m < n {
      FibMonotone(m, n - 1);
      assert n < 2 || Fib(n) == Fib(n - 1) + Fib(n - 2);
    }
  }

  lemma FibStep(n: nat, a: nat, b: nat)
    requires Fib(n) == a && Fib(n + 1) == b
    ensures Fib(n + 2) == a + b && Fib(n + 3) == a + 2 * b
    ensures Fib(n + 4) == 2 * a + 3 * b && Fib(n + 5) == 3 * a + 5 * b
  {
  }

  lemma FibAt34()
    ensures Fib(34) == FIB_34
  {
    FibStep(0, 0, 1);
    FibStep(4, 3, 5);
    FibStep(8, 21, 34);
    FibStep(12, 144, 233);
    FibStep(16, 987, 1597);
    FibStep(20, 6765, 10946);
    FibStep(24, 46368, 75025);
    FibStep(28, 317811, 514229);
    FibStep(30, 832040, 1346269);
  }

  // How many entries of s are below d.
  function Below(s: seq<nat>, d: nat): nat {
    if s == [] then 0 else (if s[0] < d then 1 else 0) + Below(s[1..], d)
  }

  // Least possible size of a subtree that had d children when it was linked and
  // has lost at most one of them.
  function Least(d: nat): nat {
    Fib(if d == 0 then 2 else d + 1)
  }

  function LeastSum(s: seq<nat>): nat {
    if s == [] then 0 else Least(s[0]) + LeastSum(s[1..])
  }

  // At most d children were linked while the parent had fewer than d children.
  ghost predicate Spread(s: seq<nat>) {
    forall d: nat :: Below(s, d) <= d
  }

  lemma {:induction false} BelowConcat(a: seq<nat>, b: seq<nat>, d: nat)
    ensures Below(a + b, d) == Below(a, d) + Below(b, d)
  {
    if a == [] {
      assert a + b == b;
    } else {
      assert (a + b)[1..] == a[1..] + b;
      BelowConcat(a[1..], b, d);
    }
  }

  lemma {:induction false} LeastSumConcat(a: seq<nat>, b: seq<nat>)
    ensures LeastSum(a + b) == LeastSum(a) + LeastSum(b)
  {
    if a == [] {
      assert a + b == b;
    } else {
      assert (a + b)[1..] == a[1..] + b;
      LeastSumConcat(a[1..], b);
    }
  }

  lemma BelowWithout(s: seq<nat>, i: nat, d: nat)
    requires i < |s|
    ensures Below(s, d) == Below(Without(s, i), d) + (if s[i] < d then 1 else 0)
  {
    assert s == s[..i] + ([s[i]] + s[i + 1..]);
    BelowConcat(s[..i], [s[i]] + s[i + 1..], d);
    BelowConcat([s[i]], s[i + 1..], d);
    BelowConcat(s[..i], s[i + 1..], d);
  }

  lemma LeastSumWithout(s: seq<nat>, i: nat)
    requires i < |s|
    ensures LeastSum(s) == LeastSum(Without(s, i)) + Least(s[i])
  {
    assert s == s[..i] + ([s[i]] + s[i + 1..]);
    LeastSumConcat(s[..i], [s[i]] + s[i + 1..]);
    LeastSumConcat([s[i]], s[i + 1..]);
    LeastSumConcat(s[..i], s[i + 1..]);
  }

  lemma SpreadWithout(s: seq<nat>, i: nat)
    requires Spread(s) && i < |s|
    ensures Spread(Without(s, i))
  {
    forall d: nat
      ensures Below(Without(s, i), d) <= d
    {
      BelowWithout(s, i, d);
      assert Below(s, d) <= d;
    }
  }

  lemma {:induction false} BelowAtMost(s: seq<nat>, d: nat)
    ensures Below(s, d) <= |s|
  {
    if s != [] {
      BelowAtMost(s[1..], d);
    }
  }

  // A new child is linked when the parent has |s| children.
  lemma SpreadInsert(s: seq<nat>, i: nat)
    requires Spread(s) && i < |s|
    ensures Spread(InsertAfter(s, i, |s|))
  {
    var t := InsertAfter(s, i, |s|);
    assert Without(t, i + 1) == s;
    forall d: nat
      ensures Below(t, d) <= d
    {
      BelowWithout(t, i + 1, d);
      BelowAtMost(s, d);
      assert Below(s, d) <= d;
    }
  }

  lemma SpreadOne()
    ensures Spread([0])
  {
    forall d: nat
      ensures Below([0], d) <= d
    {
      assert Below([0], d) == (if 0 < d then 1 else 0) + Below([], d);
    }
  }

  lemma {:induction false} AllBelow(s: seq<nat>, d: nat)
    requires forall i :: 0 <= i < |s| ==> s[i] < d
    ensures Below(s, d) == |s|
  {
    if s != [] {
      AllBelow(s[1..], d);
    }
  }

  lemma {:induction false} SpreadSum(s: seq<nat>)
    requires Spread(s)
    ensures LeastSum(s) + 1 >= Fib(|s| + 2)
    decreases |s|
  {
    var k := |s|;
    if k > 0 {
      var d: nat := k - 1;
      assert Below(s, d) <= d;
      if forall i :: 0 <= i < k ==> s[i] < d {
        AllBelow(s, d);
        assert false;
      }
      var i :| 0 <= i < k && s[i] >= d;
      SpreadWithout(s, i);
      SpreadSum(Without(s, i));
      LeastSumWithout(s, i);
      FibMonotone(if k <= 1 then 2 else k, if s[i] == 0 then 2 else s[i] + 1);
      assert Fib(k + 2) == Fib(k + 1) + Fib(k);
    }
  }

  // ---- subtrees

  // Ranks fall along every parent link.
  ghost predicate Ranked(kids: Kids, rank: map<nat, nat>, top: nat) {
    && rank.Keys == kids.Keys - {NIL}
    && (forall x :: x in rank ==> rank[x] <= top)
    && (forall p, c :: p in kids && p != NIL && c in kids[p] ==> c in rank && rank[c] < rank[p])
  }

  ghost predicate IsUnder(l: Links, kids: Kids, rank: map<nat, nat>, top: nat, y: nat, x: nat)
    requires Shape(l, kids, {}) && Ranked(kids, rank, top)
    requires y in kids && y != NIL
    decreases top - rank[y]
  {
    y == x ||
    var s := l.At(y).sup;
    assert Placed(l, kids, y);
    s != NIL && IsUnder(l, kids, rank, top, s, x)
  }

  ghost function Subtree(l: Links, kids: Kids, rank: map<nat, nat>, top: nat, x: nat): set<nat>
    requires Shape(l, kids, {}) && Ranked(kids, rank, top)
  {
    set y | y in kids && y != NIL && IsUnder(l, kids, rank, top, y, x)
  }

  lemma {:induction false} UnderRank(l: Links, kids: Kids, rank: map<nat, nat>, top: nat, y: nat, x: nat)
    requires Shape(l, kids, {}) && Ranked(kids, rank, top)
    requires y in kids && y != NIL && IsUnder(l, kids, rank, top, y, x)
    ensures x in rank && rank[y] <= rank[x]
    decreases top - rank[y]
  {
    if y != x {
      assert Placed(l, kids, y);
      UnderRank(l, kids, rank, top, l.At(y).sup, x);
    }
  }

  lemma {:induction false} UnderParent(l: Links, kids: Kids, rank: map<nat, nat>, top: nat, y: nat, c: nat)
    requires Shape(l, kids, {}) && Ranked(kids, rank, top)
    requires y in kids && y != NIL && IsUnder(l, kids, rank, top, y, c)
    requires c in kids && c != NIL && l.At(c).sup != NIL
    ensures IsUnder(l, kids, rank, top, y, l.At(c).sup)
    decreases top - rank[y]
  {
    assert Placed(l, kids, y);
    if y != c {
      UnderParent(l, kids, rank, top, l.At(y).sup, c);
    } else {
      assert IsUnder(l, kids, rank, top, l.At(c).sup, l.At(c).sup);
    }
  }

  lemma {:induction false} SiblingsApart(l: Links, kids: Kids, rank: map<nat, nat>, top: nat, y: nat, c: nat, d: nat)
    requires Shape(l, kids, {}) && Ranked(kids, rank, top)
    requires y in kids && y != NIL && c != d
    requires c in kids && c != NIL && d in kids && d != NIL && l.At(c).sup == l.At(d).sup != NIL
    requires IsUnder(l, kids, rank, top, y, c)
    ensures !IsUnder(l, kids, rank, top, y, d)
    decreases top - rank[y]
  {
    assert Placed(l, kids, y) && Placed(l, kids, c) && Placed(l, kids, d);
    if IsUnder(l, kids, rank, top, y, d) {
      if y == c {
        UnderRank(l, kids, rank, top, l.At(c).sup, d);
      } else if y == d {
        UnderRank(l, kids, rank, top, l.At(d).sup, c);
      } else {
        SiblingsApart(l, kids, rank, top, l.At(y).sup, c, d);
      }
    }
  }

  // ---- the bound

  function Degrees(s: seq<nat>, ldeg: map<nat, nat>): seq<nat>
    requires forall c :: c in s ==> c in ldeg
  {
    seq(|s|, i requires 0 <= i < |s| => ldeg[s[i]])
  }

  // ldeg[c] is the number of children c had when it last became a child.
  // It has lost at most one since, and none while unmarked.
  ghost predicate Kept(l: Links, kids: Kids, ldeg: map<nat, nat>, c: nat)
    requires Keyed(l, kids) && c in kids && c != NIL && c in ldeg
  {
    |kids[c]| + (if l.At(c).isMarked then 1 else 0) >= ldeg[c]
  }

  ghost predicate AllKept(l: Links, kids: Kids, ldeg: map<nat, nat>, exempt: set<nat>)
    requires Keyed(l, kids) && ldeg.Keys == kids.Keys - {NIL}
  {
    forall c :: c in ldeg && c !in exempt && l.At(c).sup != NIL ==> Kept(l, kids, ldeg, c)
  }

  ghost predicate AllSpread(l: Links, kids: Kids, ldeg: map<nat, nat>)
    requires Keyed(l, kids) && AllOwned(l, kids) && ldeg.Keys == kids.Keys - {NIL}
  {
    forall p :: p in kids && p != NIL ==> Owned(l, kids, p) && Spread(Degrees(kids[p], ldeg))
  }

  ghost predicate DegreesOk(l: Links, kids: Kids, rank: map<nat, nat>, top: nat, ldeg: map<nat, nat>) {
    && Shape(l, kids, {}) && Ranked(kids, rank, top)
    && ldeg.Keys == kids.Keys - {NIL}
    && AllKept(l, kids, ldeg, {}) && AllSpread(l, kids, ldeg)
  }

  ghost function UnderAny(l: Links, kids: Kids, rank: map<nat, nat>, top: nat, s: seq<nat>): set<nat>
    requires Shape(l, kids, {}) && Ranked(kids, rank, top)
  {
    if s == [] then {} else Subtree(l, kids, rank, top, s[0]) + UnderAny(l, kids, rank, top, s[1..])
  }

  lemma {:induction false} UnderAnyMember(l: Links, kids: Kids, rank: map<nat, nat>, top: nat, s: seq<nat>, y: nat)
    requires Shape(l, kids, {}) && Ranked(kids, rank, top)
    requires y in UnderAny(l, kids, rank, top, s)
    ensures y in kids && y != NIL && exists c :: c in s && IsUnder(l, kids, rank, top, y, c)
  {
    if y !in Subtree(l, kids, rank, top, s[0]) {
      UnderAnyMember(l, kids, rank, top, s[1..], y);
    } else {
      assert s[0] in s && IsUnder(l, kids, rank, top, y, s[0]);
    }
  }

  lemma SubtreesDisjoint(l: Links, kids: Kids, rank: map<nat, nat>, top: nat, p: nat, c: nat, t: seq<nat>)
    requires Shape(l, kids, {}) && Ranked(kids, rank, top)
    requires p in kids && p != NIL && c in kids[p] && c !in t
    requires forall d :: d in t ==> d in kids[p]
    ensures Subtree(l, kids, rank, top, c) !! UnderAny(l, kids, rank, top, t)
  {
    assert Owned(l, kids, p);
    forall y | y in Subtree(l, kids, rank, top, c)
      ensures y !in UnderAny(l, kids, rank, top, t)
    {
      if y in UnderAny(l, kids, rank, top, t) {
        UnderAnyMember(l, kids, rank, top, t, y);
        var d :| d in t && IsUnder(l, kids, rank, top, y, d);
        SiblingsApart(l, kids, rank, top, y, c, d);
      }
    }
  }

  lemma DisjointSize(a: set<nat>, b: set<nat>)
    requires a !! b
    ensures |a + b| == |a| + |b|
  {
  }

  lemma {:induction false} SumOfSubtrees(l: Links, kids: Kids, rank: map<nat, nat>, top: nat, ldeg: map<nat, nat>, p: nat, s: seq<nat>)
    requires Shape(l, kids, {}) && Ranked(kids, rank, top)
    requires p in kids && p != NIL && Distinct(s)
    requires forall c :: c in s ==> c in kids[p] && c in ldeg
    requires forall c :: c in s ==> |Subtree(l, kids, rank, top, c)| >= Least(ldeg[c])
    ensures |UnderAny(l, kids, rank, top, s)| >= LeastSum(Degrees(s, ldeg))
    decreases |s|
  {
    hide AllOwned, AllRings, AllPlaced, LooseOk, Ranked, Fib, Subtree;
    if s != [] {
      var c, t := s[0], s[1..];
      assert Degrees(s, ldeg)[1..] == Degrees(t, ldeg);
      SumOfSubtrees(l, kids, rank, top, ldeg, p, t);
      SubtreesDisjoint(l, kids, rank, top, p, c, t);
      DisjointSize(Subtree(l, kids, rank, top, c), UnderAny(l, kids, rank, top, t));
    }
  }

  lemma LeastOfKept(k: nat, d: nat)
    requires k + 1 >= d
    ensures Fib(k + 2) >= Least(d)
  {
    FibMonotone(if d == 0 then 2 else d + 1, k + 2);
  }

  lemma UnderChildren(l: Links, kids: Kids, rank: map<nat, nat>, top: nat, x: nat)
    requires Shape(l, kids, {}) && Ranked(kids, rank, top) && x in kids && x != NIL
    ensures x !in UnderAny(l, kids, rank, top, kids[x])
    ensures UnderAny(l, kids, rank, top, kids[x]) + {x} <= Subtree(l, kids, rank, top, x)
  {
    assert Owned(l, kids, x);
    forall y | y in UnderAny(l, kids, rank, top, kids[x])
      ensures y in Subtree(l, kids, rank, top, x) && y != x
    {
      UnderAnyMember(l, kids, rank, top, kids[x], y);
      var c :| c in kids[x] && IsUnder(l, kids, rank, top, y, c);
      UnderParent(l, kids, rank, top, y, c);
      UnderRank(l, kids, rank, top, y, c);
    }
  }

  lemma KeptOf(l: Links, kids: Kids, rank: map<nat, nat>, top: nat, ldeg: map<nat, nat>, x: nat, c: nat)
    requires DegreesOk(l, kids, rank, top, ldeg)
    requires x in kids && x != NIL && c in kids[x]
    ensures c in kids && c != NIL && c in rank && c in ldeg && rank[c] < rank[x]
    ensures Fib(|kids[c]| + 2) >= Least(ldeg[c])
  {
    assert Owned(l, kids, x);
    assert Kept(l, kids, ldeg, c);
    LeastOfKept(|kids[c]|, ldeg[c]);
  }

  lemma SpreadOf(l: Links, kids: Kids, rank: map<nat, nat>, top: nat, ldeg: map<nat, nat>, x: nat)
    requires DegreesOk(l, kids, rank, top, ldeg) && x in kids && x != NIL
    ensures Distinct(kids[x]) && forall c :: c in kids[x] ==> c in ldeg
    ensures LeastSum(Degrees(kids[x], ldeg)) + 1 >= Fib(|kids[x]| + 2)
  {
    hide AllRings, AllPlaced, LooseOk, Ranked, AllKept;
    assert Owned(l, kids, x);
    SpreadSum(Degrees(kids[x], ldeg));
  }

  // A node with k children heads a subtree of at least Fib(k + 2) nodes.
  lemma {:induction false} SubtreeBound(l: Links, kids: Kids, rank: map<nat, nat>, top: nat, ldeg: map<nat, nat>, x: nat)
    requires DegreesOk(l, kids, rank, top, ldeg)
    requires x in kids && x != NIL
    ensures |Subtree(l, kids, rank, top, x)| >= Fib(|kids[x]| + 2)
    decreases rank[x]
  {
    hide Shape, Ranked, AllKept, AllSpread, Subtree, UnderAny, LeastSum, Degrees, Fib, Least;
    SpreadOf(l, kids, rank, top, ldeg, x);
    forall c | c in kids[x]
      ensures |Subtree(l, kids, rank, top, c)| >= Least(ldeg[c])
    {
      KeptOf(l, kids, rank, top, ldeg, x, c);
      SubtreeBound(l, kids, rank, top, ldeg, c);
    }
    SumOfSubtrees(l, kids, rank, top, ldeg, x, kids[x]);
    UnderChildren(l, kids, rank, top, x);
    SubsetSize(UnderAny(l, kids, rank, top, kids[x]) + {x}, Subtree(l, kids, rank, top, x));
  }

  lemma {:induction false} SubsetSize(a: set<nat>, b: set<nat>)
    requires a <= b
    ensures |a| <= |b|
  {
    assert b == a + (b - a);
  }

  // While fewer than Fib(34) nodes are live no node has 32 children.
  lemma DegreeBound(l: Links, kids: Kids, rank: map<nat, nat>, top: nat, ldeg: map<nat, nat>, x: nat)
    requires DegreesOk(l, kids, rank, top, ldeg)
    requires |kids.Keys - {NIL}| < FIB_34
    requires x in kids && x != NIL
    ensures |kids[x]| < MAX_N_SUB
  {
    hide AllOwned, AllRings, AllPlaced, LooseOk, Ranked, AllKept, AllSpread, Fib, IsUnder;
    SubtreeBound(l, kids, rank, top, ldeg, x);
    SubsetSize(Subtree(l, kids, rank, top, x), kids.Keys - {NIL});
    FibAt34();
    if |kids[x]| >= MAX_N_SUB {
      FibMonotone(34, |kids[x]| + 2);
    }
  }
}

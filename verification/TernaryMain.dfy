// The classifier itself: the table of pairs, the best search tree found so far,
// and a working copy that random splits and joins try to improve.
module TernaryMains {
  import opened TernaryKeys
  import opened TernaryTree
  import opened TernarySteps
  import opened TernaryInvariant
  import opened TernaryTables
  import opened TernaryCopies
  import opened TernaryCosts

  // The random numbers of a round, but for the bit: which way to go at each node,
  // whether to join, and luck.
  datatype Draw = Draw(coins: nat -> bool, join: bool, luck: bool)

  // Where going down from t ends, by the coins from the i-th on.
  function WalkDown(t: Tree, coins: nat -> bool, i: nat): Tree
    decreases t
  {
    match t
    case Leaf(_) => t
    case Split(_, l, r) => WalkDown(if coins(i) then r else l, coins, i + 1)
  }

  lemma {:induction false} WalkLater(t: Tree, coins: nat -> bool, later: nat -> bool, i: nat)
    requires forall k: nat :: later(k + 1) == coins(k)
    ensures WalkDown(t, later, i + 1) == WalkDown(t, coins, i)
    decreases t
  {
    if t.Split? {
      WalkLater(if coins(i) then t.right else t.left, coins, later, i + 1);
    }
  }

  // Every leaf can be drawn.
  lemma {:induction false} EveryLeafDrawn(u: Tree, n: nat) returns (coins: nat -> bool)
    requires LeafOf(u, n)
    ensures WalkDown(u, coins, 0).ni == n
    decreases u
  {
    coins := k => false;
    if u.ni != n {
      var right := n !in NodesOf(u.left);
      var rest := EveryLeafDrawn(if right then u.right else u.left, n);
      coins := (k: nat) => if k == 0 then right else rest(k - 1);
      WalkLater(if right then u.right else u.left, rest, coins, 0);
    }
  }

  // The choice is what the random numbers make it.
  ghost predicate DrawnBy(c: Choice, u: Tree, r: Draw) {
    c.join == r.join && c.luck == r.luck && c.sub == WalkDown(u, r.coins, 0).ni
  }

  // With these random numbers there is nothing to try.
  ghost predicate Fruitless(st: Store, u: Tree, d: Cost, limit: nat, least: nat, r: Draw) {
    exists c :: DrawnBy(c, u, r) && Decided(st, u, d, limit, least, c, false, false)
  }

  // What one round of the search tries: a random leaf and the node above it,
  // whether to join rather than split, luck, and a random bit, if masked is true.
  datatype Choice = Choice(sub: nat, sup: nat, join: bool, luck: bool, bit: nat, masked: bool)

  // The working copy and its cost before and after a round, and the store before.
  datatype Move = Move(st: Store, u: Tree, d: Cost, u': Tree, d': Cost)

  predicate CanJoin(st: Store, sup: nat) {
    && sup != INVALID && sup in st.nodes && st.nodes[sup].sub0 in st.nodes && st.nodes[sup].sub1 in st.nodes
    && !st.nodes[st.nodes[sup].sub0].IsSplit() && !st.nodes[st.nodes[sup].sub1].IsSplit()
  }

  predicate CanSplit(st: Store, sub: nat, d: Cost, limit: nat, least: nat) {
    d.nonEmpty + 1 <= limit && |VecOf(st, sub)| >= least
  }

  // A leaf of u, which is the root or below sup.
  ghost predicate LeafChosen(st: Store, u: Tree, c: Choice) {
    && LeafOf(u, c.sub)
    && if c.sup == INVALID then c.sub == u.ni
       else c.sup in st.nodes && (st.nodes[c.sup].sub0 == c.sub || st.nodes[c.sup].sub1 == c.sub)
  }

  // The round had something to do, and its change was kept, exactly when they should.
  ghost predicate Decided(st: Store, u: Tree, d: Cost, limit: nat, least: nat, c: Choice, did: bool, accepted: bool) {
    && LeafChosen(st, u, c)
    && (did <==> (c.join && CanJoin(st, c.sup)) || CanSplit(st, c.sub, d, limit, least))
    && (accepted <==>
          if c.join && CanJoin(st, c.sup) then
            JoinAccepted(VecOf(st, st.nodes[c.sup].sub0), VecOf(st, st.nodes[c.sup].sub1), st.pairs, st.nodes[c.sup].splitBit, d, c.luck)
          else
            CanSplit(st, c.sub, d, limit, least) && c.masked && SplitAccepted(VecOf(st, c.sub), st.pairs, c.bit, d, c.luck))
  }

  // What the working copy became.
  ghost predicate Moved(m: Move, c: Choice, accepted: bool) {
    && (!accepted ==> m.u' == m.u && m.d' == m.d)
    && (accepted && c.join && CanJoin(m.st, c.sup) ==> JoinOf(m.u, m.u', c.sup) && m.d'.nonEmpty <= m.d.nonEmpty)
    && (accepted && !(c.join && CanJoin(m.st, c.sup)) ==> SplitOf(m.u, m.u', c.sub) && m.d'.nonEmpty <= m.d.nonEmpty + 1)
  }

  // The bit is one that a pair of the leaf masks and the key of the leaf does not.
  ghost predicate BitChosen(st: Store, c: Choice) {
    c.masked ==> c.sub in st.nodes && c.bit !in st.nodes[c.sub].key.mask
                 && exists o :: o in VecOf(st, c.sub) && o in st.pairs && c.bit in st.pairs[o].mask
  }

  // A node is joined exactly if it is above two leaves.
  lemma CanJoinExact(st: Store, t: Tree, u: Tree, c: Cost, d: Cost, sup: nat)
    requires Inv(st, t, Busy(u), c, d) && ParentIn(u, sup)
    ensures CanJoin(st, sup) <==> exists a: nat, b: nat :: JoinableAt(u, sup, a, b)
  {
    hide Good, RefsOk, PoolOf, CostOf, NodesOf, SubAt, Injective;
    var s := SubAt(u, sup);
    AtSub(st, t, u, c, d, sup);
    AtChild(st, u, sup, s);
    if s.left.Leaf? && s.right.Leaf? {
      assert JoinableAt(u, sup, s.left.ni, s.right.ni);
    }
  }

  lemma AtSub(st: Store, t: Tree, u: Tree, c: Cost, d: Cost, n: nat)
    requires Inv(st, t, Busy(u), c, d) && ParentIn(u, n)
    ensures At(st, u, n, SubAt(u, n)) && SubAt(u, n).ni == n
  {
    hide Good;
    SubAtPart(u, n);
  }

  // A round adds a non-empty leaf only below the limit, and to a leaf of enough
  // pairs only.
  lemma LeafsBounded(m: Move, limit: nat, least: nat, c: Choice, did: bool, accepted: bool)
    requires Decided(m.st, m.u, m.d, limit, least, c, did, accepted) && Moved(m, c, accepted)
    ensures m.d'.nonEmpty <= m.d.nonEmpty || m.d'.nonEmpty <= limit
    ensures m.u' == m.u || JoinOf(m.u, m.u', c.sup) || (SplitOf(m.u, m.u', c.sub) && |VecOf(m.st, c.sub)| >= least)
  {
    hide JoinOf, SplitOf, JoinAccepted, SplitAccepted, LeafChosen;
  }

  // A round that had nothing to do changed nothing.
  lemma NothingDone(m: Move, limit: nat, least: nat, c: Choice, did: bool, accepted: bool, r: Draw)
    requires Decided(m.st, m.u, m.d, limit, least, c, did, accepted) && Moved(m, c, accepted) && DrawnBy(c, m.u, r)
    ensures !did ==> !accepted && m.u' == m.u && m.d' == m.d && Fruitless(m.st, m.u, m.d, limit, least, r)
  {
    hide JoinOf, SplitOf, JoinAccepted, SplitAccepted, LeafChosen;
  }

  lemma SameLeaf(st: Store, u: Tree, c: Choice, c': Choice, r: Draw)
    requires LeafChosen(st, u, c) && DrawnBy(c, u, r) && c' == c.(bit := c'.bit, masked := c'.masked)
    ensures LeafChosen(st, u, c') && DrawnBy(c', u, r)
  {
  }

  function Lesser(a: nat, b: nat): nat {
    if a < b then a else b
  }

  class Main {
    var nodes: map<nat, Node>
    var pool: map<nat, Shared>
    var pairs: map<nat, Key>

    // Root and counts of the best tree and of the trial slot, which holds the working
    // copy while there is one.  Before the first step both slots name the first root;
    // later an idle slot keeps the index of a root that was freed.
    var minRoot: nat
    var minCost: Cost
    var curRoot: nat
    var curCost: Cost
    var nSteps: nat

    const maxLeafs: nat
    const minPairsForSplit: nat
    const restartAfterSteps: nat

    ghost var minTree: Tree
    ghost var work: Work

    // Splits kept less joins kept since the working copy was made.
    ghost var kept: int

    function St(): Store
      reads this`nodes, this`pool, this`pairs
    {
      Store(nodes, pool, pairs)
    }

    // Both trees are right, and every count is what a recount gives.
    ghost predicate Sound()
      reads this
    {
      && Inv(St(), minTree, work, minCost, curCost)
      && minTree.ni == minRoot && (work.Busy? ==> work.tree.ni == curRoot)
      && (work.Idle? ==> curRoot == minRoot || curRoot !in NodesOf(minTree))
      && (work.Busy? ==> Leaves(work.tree) == Leaves(minTree) + kept)
      && minPairsForSplit > 0
    }

    ghost predicate Valid()
      reads this
    {
      Sound() && (nSteps > 0 <==> work.Busy?)
    }

    // One empty leaf at the root, and no pairs.
    constructor (maxLeafs: nat, minPairsForSplit: nat, restartAfterSteps: nat)
      requires minPairsForSplit > 0
      ensures Valid() && pairs == map[] && nSteps == 0 && minTree.Leaf? && curRoot == minRoot
      ensures minRoot in nodes && nodes[minRoot].poolIndex == INVALID && minCost == Cost(0, 0, 0)
      ensures this.maxLeafs == maxLeafs && this.minPairsForSplit == minPairsForSplit
      ensures this.restartAfterSteps == restartAfterSteps
    {
      this.maxLeafs := maxLeafs;
      this.minPairsForSplit := minPairsForSplit;
      this.restartAfterSteps := restartAfterSteps;
      nodes := map[0 := Node(EMPTY_KEY, 0, INVALID, INVALID, INVALID)];
      pool := map[];
      pairs := map[];
      minRoot, curRoot := 0, 0;
      minCost, curCost := Cost(0, 0, 0), Cost(0, 0, 0);
      nSteps := 0;
      minTree := Leaf(0);
      work, kept := Idle, 0;
    }

    // ---- nodes and leaf vectors

    method NewNode() returns (ni: nat)
      modifies this`nodes
      ensures ni !in old(nodes) && ni != INVALID
      ensures nodes == old(nodes)[ni := Node(EMPTY_KEY, 0, INVALID, INVALID, INVALID)]
    {
      ghost var g := FreshIndex(nodes.Keys);
      ni :| ni !in nodes && ni != INVALID;
      nodes := nodes[ni := Node(EMPTY_KEY, 0, INVALID, INVALID, INVALID)];
    }

    method NewVec(vec: seq<nat>) returns (pi: nat)
      modifies this`pool
      ensures pi !in old(pool) && pi != INVALID
      ensures pool == old(pool)[pi := Shared(vec, 1)]
    {
      ghost var g := FreshIndex(pool.Keys);
      pi :| pi !in pool && pi != INVALID;
      pool := pool[pi := Shared(vec, 1)];
    }

    // Gives up one reference; the last one frees the vector.
    method PutPairs(pi: nat)
      requires pi in pool && pool[pi].refs > 0
      modifies this`pool
      ensures pool == PutRef(old(pool), pi)
    {
      var n := pool[pi].refs - 1;
      if n == 0 {
        pool := pool - {pi};
      } else {
        pool := pool[pi := pool[pi].(refs := n)];
      }
    }

    method FreePairs(i: nat)
      requires i in nodes && INVALID !in pool
      requires nodes[i].poolIndex != INVALID ==> nodes[i].poolIndex in pool && pool[nodes[i].poolIndex].refs > 0
      modifies this`nodes, this`pool
      ensures nodes == old(nodes)[i := old(nodes)[i].(poolIndex := INVALID)] && pool == DropRef(old(pool), old(nodes), i)
    {
      if nodes[i].poolIndex != INVALID {
        PutPairs(nodes[i].poolIndex);
      }
      nodes := nodes[i := nodes[i].(poolIndex := INVALID)];
    }

    method FreeNode(i: nat)
      requires i in nodes && INVALID !in pool
      requires nodes[i].poolIndex != INVALID ==> nodes[i].poolIndex in pool && pool[nodes[i].poolIndex].refs > 0
      modifies this`nodes, this`pool
      ensures nodes == old(nodes) - {i} && pool == DropRef(old(pool), old(nodes), i)
    {
      FreePairs(i);
      nodes := nodes - {i};
    }

    // Sub nodes for leaf n, whose keys add the split bit as 0 and as 1.
    method AllocSubs(n: nat, bit: nat) returns (ni0: nat, ni1: nat)
      requires n in nodes
      modifies this`nodes
      ensures ni0 !in old(nodes) && ni1 !in old(nodes) && ni0 != ni1 && ni0 != INVALID && ni1 != INVALID
      ensures var nd := old(nodes)[n];
              nodes == old(nodes)[ni0 := Node(Key0(nd.key, bit), 0, INVALID, INVALID, INVALID)]
                       [ni1 := Node(Key1(nd.key, bit), 0, INVALID, INVALID, INVALID)]
                       [n := nd.(splitBit := bit, sub0 := ni0, sub1 := ni1)]
    {
      ni0 := NewNode();
      ni1 := NewNode();
      var k := nodes[n].key;
      nodes := nodes[n := nodes[n].(splitBit := bit, sub0 := ni0, sub1 := ni1)];
      nodes := nodes[ni0 := nodes[ni0].(key := Key0(k, bit))];
      nodes := nodes[ni1 := nodes[ni1].(key := Key1(k, bit))];
      AllocIs(old(nodes), n, ni0, ni1, bit);
    }

    // ---- giving up a tree

    // keep holds the vectors of the other tree, b those of the tree t is part of.
    method FreeTreeNode(i: nat, ghost t: Tree, ghost key: Key, ghost keep: set<nat>, ghost b: set<nat>)
      requires Good(St(), t, key) && t.ni == i && RefsOk(pool, keep, b) && PoolOf(St(), t) <= b
      modifies this`nodes, this`pool
      ensures nodes == old(nodes) - NodesOf(t)
      ensures RefsOk(pool, keep, b - old(PoolOf(St(), t)))
      ensures Released(old(pool), pool, keep, old(PoolOf(St(), t)))
      decreases t
    {
      hide Good, RefsOk, PoolOf, CostOf, Released, DropRef, PoolAt;
      ghost var st := St();
      GoodParts(st, t, key);
      if nodes[i].IsSplit() {
        ghost var k0, k1 := Key0(key, nodes[i].splitBit), Key1(key, nodes[i].splitBit);
        ghost var gl, gr := PoolOf(st, t.left), PoolOf(st, t.right);
        GoodParts(st, t.left, k0);
        FreeTreeNode(nodes[i].sub0, t.left, k0, keep, b);
        FreedLeft(st, St(), t, key, keep, b - gl);
        ghost var pool1 := pool;
        FreeTreeNode(nodes[i].sub1, t.right, k1, keep, b - gl);
        ReleasedTwice(st.pool, pool1, pool, keep, gl, gr);
        assert b - gl - gr == b - PoolOf(st, t) && nodes[i] == st.nodes[i];
        FreedNode(nodes, pool, keep, b - PoolOf(st, t), i);
        FreeNode(i);
      } else {
        FreedLeaf(st, t, key, keep, b);
        FreeNode(i);
      }
    }

    // ---- the working copy

    method AddReference(si: nat, ghost a: set<nat>, ghost b: set<nat>)
      requires si in nodes && RefsOk(pool, a, b) && PoolAt(St(), si) <= a && PoolAt(St(), si) !! b
      modifies this`pool
      ensures RefsOk(pool, a, b + old(PoolAt(St(), si))) && VecsKept(old(pool), pool)
    {
      var pi := nodes[si].poolIndex;
      if pi != INVALID {
        CloneRefOk(pool, a, b, pi);
        pool := pool[pi := pool[pi].(refs := pool[pi].refs + 1)];
      }
    }

    // A new sub node of di, on the side one, that becomes a copy of the tree t.
    method CloneSub(di: nat, one: bool, si: nat, ghost t: Tree, ghost key: Key, ghost a: set<nat>, ghost b: set<nat>)
      returns (ghost u: Tree)
      requires Good(St(), t, key) && t.ni == si && di in nodes && di !in NodesOf(t)
      requires RefsOk(pool, a, b) && PoolOf(St(), t) <= a && PoolOf(St(), t) !! b
      modifies this`nodes, this`pool
      ensures Cloned(old(St()), St(), t, u) && NodesOf(u) !! old(nodes).Keys && u.ni != INVALID
      ensures nodes.Keys == old(nodes).Keys + NodesOf(u) && SameNodes(old(St()), St(), old(nodes).Keys - {di})
      ensures di in nodes && nodes[di] == (if one then old(nodes)[di].(sub1 := u.ni) else old(nodes)[di].(sub0 := u.ni))
      ensures RefsOk(pool, a, b + old(PoolOf(St(), t)))
      decreases t, 3
    {
      hide Good, RefsOk, PoolOf, CopyOf, Cloned, CostOf, NodesOf, SameNodes;
      ghost var st := St();
      GoodNodes(st, t, key);
      PoolInvalid(pool, a, b);
      var ni := NewNode();
      nodes := nodes[di := if one then nodes[di].(sub1 := ni) else nodes[di].(sub0 := ni)];
      GoodFrame(st, St(), t, key);
      ghost var st1 := St();
      u := CloneTreeNode(ni, si, t, key, a, b);
      SubCloned(st, st1, St(), t, u, di, ni);
    }

    // The sub nodes of di, when si has sub nodes.
    method CloneSubs(di: nat, si: nat, ghost t: Tree, ghost key: Key, ghost a: set<nat>, ghost b: set<nat>)
      returns (ghost u0: Tree, ghost u1: Tree)
      requires Good(St(), t, key) && t.ni == si && t.Split? && di in nodes && di !in NodesOf(t) && di != INVALID
      requires RefsOk(pool, a, b) && PoolOf(St(), t) <= a && PoolOf(St(), t) !! b
      modifies this`nodes, this`pool
      ensures Cloned(old(St()), St(), t.left, u0) && Cloned(old(St()), St(), t.right, u1)
      ensures NodesOf(u0) !! old(nodes).Keys && NodesOf(u1) !! old(nodes).Keys && NodesOf(u0) !! NodesOf(u1)
      ensures nodes.Keys == old(nodes).Keys + NodesOf(u0) + NodesOf(u1) && SameNodes(old(St()), St(), old(nodes).Keys - {di})
      ensures di in nodes && nodes[di] == old(nodes)[di].(sub0 := u0.ni, sub1 := u1.ni)
      ensures RefsOk(pool, a, b + old(PoolOf(St(), t)))
      decreases t, 1
    {
      hide Good, RefsOk, PoolOf, Cloned, NodesOf, SameNodes;
      ghost var st := St();
      GoodParts(st, t, key);
      ghost var k0, k1 := Key0(key, nodes[si].splitBit), Key1(key, nodes[si].splitBit);
      u0 := CloneSub(di, false, nodes[si].sub0, t.left, k0, a, b);
      ghost var st1 := St();
      PoolInvalid(pool, a, b + PoolOf(st, t.left));
      RightAfterLeft(st, st1, t, u0, key, di);
      u1 := CloneSub(di, true, nodes[si].sub1, t.right, k1, a, b + PoolOf(st, t.left));
      SubsCloned(st, st1, St(), t.left, t.right, u0, u1, di);
      assert b + PoolOf(st, t.left) + PoolOf(st, t.right) == b + PoolOf(st, t);
    }

    // The copied fields of the node, and its reference to the vector of a leaf.
    method CopyNode(di: nat, si: nat, ghost a: set<nat>, ghost b: set<nat>)
      requires si in nodes && di in nodes && si != di && RefsOk(pool, a, b) && PoolAt(St(), si) <= a && PoolAt(St(), si) !! b
      modifies this`nodes, this`pool
      ensures RefsOk(pool, a, b + old(PoolAt(St(), si))) && VecsKept(old(pool), pool)
      ensures var ns := old(nodes);
              nodes == ns[di := Node(ns[si].key, ns[si].splitBit, ns[di].sub0, ns[di].sub1, ns[si].poolIndex)]
    {
      AddReference(si, a, b);
      nodes := nodes[di := nodes[di].(poolIndex := nodes[si].poolIndex)];
      nodes := nodes[di := nodes[di].(splitBit := nodes[si].splitBit)];
      nodes := nodes[di := nodes[di].(key := nodes[si].key)];
    }

    method CloneTreeNode(di: nat, si: nat, ghost t: Tree, ghost key: Key, ghost a: set<nat>, ghost b: set<nat>)
      returns (ghost u: Tree)
      requires Good(St(), t, key) && t.ni == si && di in nodes && di !in NodesOf(t) && di != INVALID
      requires nodes[di].sub0 == INVALID && nodes[di].sub1 == INVALID
      requires RefsOk(pool, a, b) && PoolOf(St(), t) <= a && PoolOf(St(), t) !! b
      modifies this`nodes, this`pool
      ensures Cloned(old(St()), St(), t, u) && u.ni == di
      ensures (NodesOf(u) - {di}) !! old(nodes).Keys && nodes.Keys == old(nodes).Keys + NodesOf(u)
      ensures SameNodes(old(St()), St(), old(nodes).Keys - {di})
      ensures RefsOk(pool, a, b + old(PoolOf(St(), t)))
      decreases t, 2
    {
      hide Good, RefsOk, PoolOf, CopyOf, LinkedIn, Cloned, CostOf;
      ghost var st := St();
      GoodParts(st, t, key);
      if nodes[si].IsSplit() {
        ghost var u0, u1 := CloneSubs(di, si, t, key, a, b);
        ghost var st2 := St();
        CopyNode(di, si, a, b + PoolOf(st, t));
        CopiedSplit(st, st2, St(), t, u0, u1, key, di);
        u := Split(di, u0, u1);
        assert b + PoolOf(st, t) + {} == b + PoolOf(st, t);
      } else {
        CopyNode(di, si, a, b);
        CopiedLeaf(st, St(), t, key, di);
        u := Leaf(di);
      }
    }

    // Gives up the working copy, if there is one.
    method Restart()
      requires Valid()
      modifies this`nodes, this`pool, this`nSteps, this`work
      ensures Valid() && nSteps == 0 && work == Idle
    {
      hide Good, RefsOk, PoolOf, NodesOf, CostOf, Injective;
      if nSteps > 0 {
        ghost var st, u := St(), work.tree;
        RootsApart(st, minTree, u, minCost, curCost);
        FreeTreeNode(curRoot, u, EMPTY_KEY, PoolOf(st, minTree), PoolOf(st, u));
        RestartInv(st, St(), minTree, u, minCost, curCost);
        work := Idle;
        nSteps := 0;
      }
    }

    // Starts a working copy of the best tree.
    method CloneTree()
      requires Valid() && nSteps == 0
      modifies this`nodes, this`pool, this`curRoot, this`curCost, this`work, this`kept
      ensures Sound() && work.Busy? && curCost == minCost && kept == 0
      ensures CopyOf(St(), minTree, work.tree)
    {
      hide Inv, Good, RefsOk, PoolOf, CopyOf, Cloned, NodesOf, VecsKept, Leaves;
      ghost var st := St();
      assert Inv(st, minTree, Idle, minCost, curCost);
      var ni := NewNode();
      NewNodeKeeps(st, St(), minTree, minCost, curCost, ni);
      ghost var st1 := St();
      curRoot := ni;
      ghost var u := CloneTreeNode(ni, minRoot, minTree, EMPTY_KEY, PoolOf(st, minTree), {});
      assert {} + PoolOf(st, minTree) == PoolOf(st, minTree);
      CloneDone(st, st1, St(), minTree, u, minCost, curCost, ni);
      CopyLeaves(St(), minTree, u);
      Keep(u, -kept, minCost);
    }

    // The working copy is now u, of cost c.
    method Keep(ghost u: Tree, ghost more: int, c: Cost)
      modifies this`work, this`kept, this`curCost
      ensures work == Busy(u) && kept == old(kept) + more && curCost == c
    {
      work, kept, curCost := Busy(u), kept + more, c;
    }

    // ---- splitting a leaf

    // Every pair is written to both sides; only the sides it goes to move on.
    method Distribute(vec: seq<nat>, bit: nat) returns (v0: seq<nat>, v1: seq<nat>)
      requires forall o :: o in vec ==> o in pairs
      ensures v0 == Side(vec, pairs, bit, false) && v1 == Side(vec, pairs, bit, true)
    {
      var a0 := new nat[|vec|];
      var a1 := new nat[|vec|];
      var i, i0, i1 := 0, 0, 0;
      while i < |vec|
        invariant 0 <= i <= |vec| && 0 <= i0 <= i && 0 <= i1 <= i
        invariant a0[..i0] == Side(vec[..i], pairs, bit, false) && a1[..i1] == Side(vec[..i], pairs, bit, true)
      {
        var o := vec[i];
        var (r0, r1) := Branch(pairs[o], bit);
        assert vec[..i + 1][..i] == vec[..i] && vec[..i + 1][i] == o;
        a0[i0] := o;
        a1[i1] := o;
        assert a0[..i0 + 1] == a0[..i0] + [o] && a1[..i1 + 1] == a1[..i1] + [o];
        i0 := i0 + if r0 then 1 else 0;
        i1 := i1 + if r1 then 1 else 0;
        i := i + 1;
      }
      assert vec[..i] == vec;
      v0, v1 := a0[..i0], a1[..i1];
    }

    // Leaf ni becomes a node over two leaves that hold the vectors ps0 and ps1.
    method SplitInto(ni: nat, bit: nat, ps0: nat, ps1: nat) returns (ni0: nat, ni1: nat)
      requires ni in nodes && nodes[ni].poolIndex in pool && pool[nodes[ni].poolIndex].refs > 0 && INVALID !in pool
      requires nodes[ni].sub0 == INVALID && nodes[ni].sub1 == INVALID
      modifies this`nodes, this`pool
      ensures ni0 !in old(nodes) && ni1 !in old(nodes) && ni0 != ni1 && ni0 != INVALID && ni1 != INVALID
      ensures pool == PutRef(old(pool), old(nodes)[ni].poolIndex)
      ensures var key := old(nodes)[ni].key;
              nodes == old(nodes)[ni0 := Node(Key0(key, bit), 0, INVALID, INVALID, ps0)]
                       [ni1 := Node(Key1(key, bit), 0, INVALID, INVALID, ps1)][ni := Node(key, bit, ni0, ni1, INVALID)]
    {
      ni0, ni1 := AllocSubs(ni, bit);
      nodes := nodes[ni0 := nodes[ni0].(poolIndex := ps0)];
      nodes := nodes[ni1 := nodes[ni1].(poolIndex := ps1)];
      FreePairs(ni);
    }

    // Splits leaf ni on a bit not in its key, if that lowers the cost, or if no
    // half is empty and luck has it.
    method SplitLeaf(ni: nat, bit: nat, luck: bool) returns (accepted: bool)
      requires Sound() && work.Busy? && LeafOf(work.tree, ni) && ni in nodes && bit !in nodes[ni].key.mask
      modifies this`nodes, this`pool, this`work, this`curCost, this`kept
      ensures Sound() && work.Busy?
      ensures !accepted ==> St() == old(St()) && work == old(work) && curCost == old(curCost) && kept == old(kept)
      ensures accepted ==> SplitOf(old(work.tree), work.tree, ni) && ni in nodes && nodes[ni].splitBit == bit && kept == old(kept) + 1
      ensures accepted <==> SplitAccepted(old(VecOf(St(), ni)), pairs, bit, old(curCost), luck)
      ensures accepted ==> curCost.nonEmpty <= old(curCost.nonEmpty) + 1
    {
      hide Inv, VecOf, Side, Replace, LeafOf, AcceptSplit, SplitStore, PutRef, Cost.Plus, Cost.Minus, SplitOf, Leaves, NodesOf;
      ghost var st, u, d := St(), work.tree, curCost;
      SplitReady(st, minTree, u, minCost, curCost, ni);
      var vec := VecOf(St(), ni);
      var l := |vec|;
      if l == 0 {
        return false;
      }
      var v0, v1 := Distribute(vec, bit);
      var ps0 := NewVec(v0);
      var ps1 := NewVec(v1);
      var c := SplitCost(curCost, l, |v0|, |v1|);
      accepted := AcceptSplit(curCost, l, |v0|, |v1|, luck);
      if !accepted {
        TakenBack(st.pool, ps0, v0, ps1, v1);
        PutPairs(ps0);
        PutPairs(ps1);
        return;
      }
      var ni0, ni1 := SplitInto(ni, bit, ps0, ps1);
      SplitStoreIs(st, ni, bit, ni0, ni1, ps0, ps1, v0, v1, St());
      SplitInv(st, minTree, u, minCost, d, ni, bit, ni0, ni1, ps0, ps1);
      StepCostIsRecount(d, l, |v0|, |v1|);
      ReplaceRoot(u, ni, Tree.Split(ni, Leaf(ni0), Leaf(ni1)));
      SplitOfIs(u, ni, ni0, ni1);
      SplitLeaves(st, minTree, u, minCost, d, ni, ni0, ni1);
      Keep(Replace(u, ni, Tree.Split(ni, Leaf(ni0), Leaf(ni1))), 1, c);
    }

    // ---- joining two leaves

    // The pairs of the first leaf, then those of the second that mask the bit.
    method Collect(v0: seq<nat>, v1: seq<nat>, bit: nat) returns (v: seq<nat>)
      requires forall o :: o in v1 ==> o in pairs
      ensures v == v0 + Masked(v1, pairs, bit)
    {
      var a := new nat[|v0| + |v1|];
      var npos := 0;
      while npos < |v0|
        invariant 0 <= npos <= |v0| && a[..npos] == v0[..npos]
      {
        a[npos] := v0[npos];
        assert a[..npos + 1] == a[..npos] + [v0[npos]];
        npos := npos + 1;
      }
      assert a[..npos] == v0 + Masked(v1[..0], pairs, bit);
      var i := 0;
      while i < |v1|
        invariant 0 <= i <= |v1| && |v0| <= npos <= |v0| + i
        invariant a[..npos] == v0 + Masked(v1[..i], pairs, bit)
      {
        var o := v1[i];
        assert v1[..i + 1][..i] == v1[..i] && v1[..i + 1][i] == o;
        if bit in pairs[o].mask {
          a[npos] := o;
          assert a[..npos + 1] == a[..npos] + [o];
          npos := npos + 1;
        }
        i := i + 1;
      }
      assert v1[..i] == v1;
      v := a[..npos];
    }

    // Node ni, over the leaves n0 and n1, becomes a leaf with the vector pos.
    method JoinInto(ni: nat, pos: nat, v: seq<nat>)
      requires ni in nodes && nodes[ni].sub0 in nodes && nodes[ni].sub1 in nodes && INVALID !in pool
      requires nodes[ni].sub0 != ni && nodes[ni].sub1 != ni && nodes[ni].sub0 != nodes[ni].sub1
      requires pos != INVALID ==> pos in pool && pool[pos] == Shared(v, 1)
      requires NodeRefs(pool, nodes, nodes[ni].sub0) && NodeRefs(pool, nodes, nodes[ni].sub1)
      requires PoolAt(St(), nodes[ni].sub0) !! PoolAt(St(), nodes[ni].sub1)
      modifies this`nodes, this`pool
      ensures var ns := old(nodes);
              && nodes == ns[ni := Node(ns[ni].key, 0, INVALID, INVALID, pos)] - {ns[ni].sub0, ns[ni].sub1}
              && pool == DropRef(DropRef(old(pool), ns, ns[ni].sub0), ns, ns[ni].sub1)
    {
      var n0, n1 := nodes[ni].sub0, nodes[ni].sub1;
      nodes := nodes[ni := nodes[ni].(poolIndex := pos)];
      nodes := nodes[ni := nodes[ni].(splitBit := 0, sub0 := INVALID, sub1 := INVALID)];
      FreeNode(n0);
      FreeNode(n1);
    }

    // Joins the two leaves below ni, if that does not raise the cost or luck has it.
    method JoinLeaves(ni: nat, luck: bool, ghost a: nat, ghost b: nat) returns (accepted: bool)
      requires Sound() && work.Busy? && JoinableAt(work.tree, ni, a, b) && ni in nodes
      modifies this`nodes, this`pool, this`work, this`curCost, this`kept
      ensures Sound() && work.Busy?
      ensures !accepted ==> St() == old(St()) && work == old(work) && curCost == old(curCost) && kept == old(kept)
      ensures accepted ==> JoinOf(old(work.tree), work.tree, ni) && kept == old(kept) - 1
      ensures accepted <==> old(JoinAccepted(VecOf(St(), a), VecOf(St(), b), pairs, nodes[ni].splitBit, curCost, luck))
      ensures curCost.nonEmpty <= old(curCost.nonEmpty)
    {
      hide Inv, Masked, Replace, JoinableAt, AcceptCostChange, DropRef, JoinStore, NodeRefs, PoolAt, VecOf, Cost.Plus, Cost.Minus,
           Leaves, NodesOf;
      ghost var st, u, d := St(), work.tree, curCost;
      JoinReady(st, minTree, u, minCost, curCost, ni, a, b);
      var n0, n1 := nodes[ni].sub0, nodes[ni].sub1;
      var v0, v1 := VecOf(St(), n0), VecOf(St(), n1);
      var l0, l1 := |v0|, |v1|;
      var v := Collect(v0, v1, nodes[ni].splitBit);
      var pos := INVALID;
      if l0 + l1 > 0 {
        pos := NewVec(v);
        NodeRefsKept(st.pool, nodes, n0, pos, v);
        NodeRefsKept(st.pool, nodes, n1, pos, v);
      }
      var c := JoinCost(curCost, |v|, l0, l1);
      MaskedFewer(v1, pairs, nodes[ni].splitBit);
      accepted := AcceptCostChange(curCost, c, luck);
      EmptyLeavesAlwaysJoin(v0, v1, pairs, nodes[ni].splitBit, curCost, luck);
      if !accepted {
        PutPairs(pos);
        assert pool == st.pool;
        return;
      }
      PoolAtSame(st, St(), n0, n1);
      JoinInto(ni, pos, v);
      JoinStoreIs(st, ni, pos, v, St());
      JoinInv(st, minTree, u, minCost, d, ni, a, b, pos);
      StepCostIsRecount(d, |v|, l0, l1);
      ReplaceRoot(u, ni, Leaf(ni));
      JoinLeavesLess(st, minTree, u, minCost, d, ni, a, b);
      Keep(Replace(u, ni, Leaf(ni)), -1, c);
    }

    // ---- one step of the search

    // A leaf of the working copy, and the node above it.
    method RandomLeaf(coins: nat -> bool) returns (n: nat, parent: nat)
      requires Sound() && work.Busy?
      ensures LeafOf(work.tree, n) && n in nodes && curRoot == work.tree.ni && n == WalkDown(work.tree, coins, 0).ni
      ensures parent == INVALID ==> n == curRoot
      ensures parent != INVALID ==> parent in nodes && (nodes[parent].sub0 == n || nodes[parent].sub1 == n)
      ensures parent != INVALID ==> parent in nodes && ParentIn(work.tree, parent) && nodes[parent].IsSplit()
    {
      hide Good, Inv, NodesOf, PoolOf, LeafOf, ParentIn;
      n, parent := curRoot, INVALID;
      var i := 0;
      ghost var s := work.tree;
      AtRoot(St(), minTree, work.tree, minCost, curCost);
      while nodes[n].IsSplit()
        invariant n in nodes && At(St(), work.tree, n, s) && (nodes[n].IsSplit() <==> s.Split?)
        invariant parent != INVALID ==> parent in nodes && ParentIn(work.tree, parent) && nodes[parent].IsSplit()
        invariant if parent == INVALID then n == curRoot else nodes[parent].sub0 == n || nodes[parent].sub1 == n
        invariant i >= 0 && n == s.ni && WalkDown(s, coins, i) == WalkDown(work.tree, coins, 0)
        decreases s
      {
        var bit := coins(i);
        i := i + 1;
        AtChild(St(), work.tree, n, s);
        parent := n;
        n := if bit then nodes[n].sub1 else nodes[n].sub0;
        s := if bit then s.right else s.left;
      }
      AtLeaf(St(), work.tree, n, s);
    }

    // A bit that a pair of leaf n masks and the key of n does not; which pair
    // and which bit is random.  It is not found when the pair has none.
    method RandomMaskedBit(n: nat) returns (bit: nat, ok: bool)
      requires Sound() && work.Busy? && LeafOf(work.tree, n) && n in nodes && VecOf(St(), n) != []
      ensures ok ==> bit !in nodes[n].key.mask && exists o :: o in VecOf(St(), n) && o in pairs && bit in pairs[o].mask
      ensures !ok ==> exists o :: o in VecOf(St(), n) && o in pairs && pairs[o].mask <= nodes[n].key.mask
    {
      hide Good, Inv, NodesOf, PoolOf, LeafOf;
      bit := 0;
      var vec := VecOf(St(), n);
      LeafPairs(St(), minTree, work.tree, minCost, curCost, n);
      assert vec[0] in vec;
      var o :| o in vec;
      var free := pairs[o].mask - nodes[n].key.mask;
      ok := free != {};
      if ok {
        bit :| bit in free;
      } else {
        assert forall b :: b in pairs[o].mask && b !in nodes[n].key.mask ==> b in free;
      }
    }

    // One round: join above a random leaf, or split it, or neither.
    method TryStep(limit: nat, r: Draw) returns (did: bool, accepted: bool, c: Choice)
      requires Sound() && work.Busy?
      modifies this`nodes, this`pool, this`work, this`curCost, this`kept
      ensures Sound() && work.Busy?
      ensures Decided(old(St()), old(work.tree), old(curCost), limit, minPairsForSplit, c, did, accepted)
      ensures DrawnBy(c, old(work.tree), r)
      ensures BitChosen(old(St()), c)
      ensures Moved(Move(old(St()), old(work.tree), old(curCost), work.tree, curCost), c, accepted)
      ensures accepted ==> kept == old(kept) + if c.join && CanJoin(old(St()), c.sup) then -1 else 1
      ensures !accepted ==> St() == old(St()) && kept == old(kept)
    {
      hide Good, Inv, NodesOf, PoolOf, LeafOf, ParentIn, SplitAccepted, JoinAccepted, SplitOf, JoinOf, JoinableAt, VecOf, LeafChosen, DrawnBy;
      did, accepted := false, false;
      c := RandomChoice(r);
      var sub, sup := c.sub, c.sup;
      var joinable := false;
      if sup != INVALID {
        ParentParts(St(), minTree, work.tree, minCost, curCost, sup);
        joinable := !nodes[nodes[sup].sub0].IsSplit() && !nodes[nodes[sup].sub1].IsSplit();
      }
      if c.join && joinable {
        accepted := JoinLeaves(sup, c.luck, nodes[sup].sub0, nodes[sup].sub1);
        did := true;
      } else if curCost.nonEmpty + 1 <= limit && |VecOf(St(), sub)| >= minPairsForSplit {
        var bit, ok := RandomMaskedBit(sub);
        c := c.(bit := bit, masked := ok);
        SameLeaf(St(), work.tree, c.(bit := 0, masked := false), c, r);
        if ok {
          accepted := SplitLeaf(sub, bit, c.luck);
        }
        did := true;
      }
    }

    // All that is random before a bit is needed.
    method RandomChoice(r: Draw) returns (c: Choice)
      requires Sound() && work.Busy?
      ensures LeafOf(work.tree, c.sub) && c.sub in nodes && LeafChosen(St(), work.tree, c) && c.bit == 0 && !c.masked
      ensures DrawnBy(c, work.tree, r)
      ensures c.sup != INVALID ==> c.sup in nodes && ParentIn(work.tree, c.sup) && nodes[c.sup].IsSplit()
    {
      hide Good, Inv, NodesOf, PoolOf, LeafOf, ParentIn;
      var sub, sup := RandomLeaf(r.coins);
      c := Choice(sub, sup, r.join, r.luck, 0, false);
    }

    // The working copy takes the place of the best tree.
    method AcceptTree()
      requires Sound() && work.Busy?
      modifies this
      ensures Valid() && nSteps == 0 && pairs == old(pairs) && curRoot != minRoot
      ensures minTree == old(work.tree) && minCost == old(curCost)
    {
      hide Inv, Good, RefsOk, PoolOf, NodesOf, Leaves;
      ghost var st, t, u := St(), minTree, work.tree;
      RootsApart(st, t, u, minCost, curCost);
      SwapInv(st, t, u, minCost, curCost);
      BestTree(st, t, u, minCost, curCost);
      FreeTreeNode(minRoot, t, EMPTY_KEY, PoolOf(st, u), PoolOf(st, t));
      RestartInv(st, St(), u, t, curCost, minCost);
      minTree := u;
      work := Idle;
      minRoot, curRoot := curRoot, minRoot;
      minCost, curCost := curCost, minCost;
      nSteps := 0;
    }

    // A random change of the working copy.  A copy of lower cost than the best
    // tree takes its place; after too many steps without one the copy is given up.
    // The source draws without end until there is something to do, the model for a
    // number of tries; the last of those used is the first with something to do.
    method Step(tries: nat, draws: nat -> Draw)
      returns (done: bool, lowerCostFound: bool, c: Choice, accepted: bool, used: nat, ghost m: Move)
      requires Valid()
      modifies this
      ensures Sound() && pairs == old(pairs) && (done ==> Valid()) && curRoot != minRoot
      ensures if old(nSteps) > 0 then m.st == old(St()) && m.u == old(work.tree) && m.d == old(curCost)
              else CopyOf(m.st, old(minTree), m.u) && m.d == old(minCost) && m.st.pairs == old(pairs)
      ensures done ==> Decided(m.st, m.u, m.d, Lesser(|pairs|, maxLeafs), minPairsForSplit, c, true, accepted)
      ensures done ==> Moved(m, c, accepted) && BitChosen(m.st, c)
      ensures if done then 0 < used <= tries && DrawnBy(c, m.u, draws(used - 1)) else used == tries
      ensures forall k :: 0 <= k < (if done then used - 1 else used) ==>
                Fruitless(m.st, m.u, m.d, Lesser(|pairs|, maxLeafs), minPairsForSplit, draws(k))
      ensures done ==> (lowerCostFound <==> accepted && Score(m.d') < Score(old(minCost)))
      ensures lowerCostFound ==> done && nSteps == 0 && minTree == m.u' && minCost == m.d'
      ensures !lowerCostFound ==> minTree == old(minTree) && minCost == old(minCost)
      ensures done && !lowerCostFound ==>
                nSteps == if restartAfterSteps != 0 && old(nSteps) + 1 > restartAfterSteps then 0 else old(nSteps) + 1
      ensures work.Busy? ==> work.tree == m.u' && curCost == m.d'
      ensures minCost.nonEmpty <= old(minCost.nonEmpty) || minCost.nonEmpty <= m.d.nonEmpty
              || (minCost.nonEmpty <= maxLeafs && minCost.nonEmpty <= |pairs|)
      ensures work.Busy? ==> curCost.nonEmpty <= m.d.nonEmpty || (curCost.nonEmpty <= maxLeafs && curCost.nonEmpty <= |pairs|)
    {
      hide Good, Inv, NodesOf, PoolOf, Decided, Moved, BitChosen, CopyOf, DrawnBy, Fruitless;
      done, lowerCostFound := false, false;
      if nSteps == 0 {
        CloneTree();
      }
      ghost var st, u, d := St(), work.tree, curCost;
      var limit := Lesser(|pairs|, maxLeafs);
      used := 0;
      accepted, c := false, Choice(0, INVALID, false, false, 0, false);
      while used < tries && !done
        invariant Sound() && work.Busy? && pairs == old(pairs) && nSteps == old(nSteps) && used <= tries
        invariant minTree == old(minTree) && minCost == old(minCost)
        invariant if !done then St() == st && work.tree == u && curCost == d
                  else used > 0 && Decided(st, u, d, limit, minPairsForSplit, c, true, accepted)
                       && Moved(Move(st, u, d, work.tree, curCost), c, accepted) && BitChosen(st, c)
                       && DrawnBy(c, u, draws(used - 1))
        invariant forall k :: 0 <= k < (if done then used - 1 else used) ==>
                    Fruitless(st, u, d, limit, minPairsForSplit, draws(k))
      {
        done, accepted, c := TryStep(limit, draws(used));
        NothingDone(Move(st, u, d, work.tree, curCost), limit, minPairsForSplit, c, done, accepted, draws(used));
        used := used + 1;
      }
      m := Move(st, u, d, work.tree, curCost);
      if !done {
        RootsApart(St(), minTree, work.tree, minCost, curCost);
        return;
      }
      LeafsBounded(m, limit, minPairsForSplit, c, true, accepted);
      lowerCostFound := EndStep(accepted);
    }

    // A step has been taken: a copy of lower cost is kept, an old one given up.
    method EndStep(accepted: bool) returns (lowerCostFound: bool)
      requires Sound() && work.Busy?
      modifies this
      ensures Valid() && pairs == old(pairs) && curRoot != minRoot
      ensures lowerCostFound <==> accepted && Score(old(curCost)) < Score(old(minCost))
      ensures lowerCostFound ==> nSteps == 0 && minTree == old(work.tree) && minCost == old(curCost)
      ensures !lowerCostFound ==> minTree == old(minTree) && minCost == old(minCost)
      ensures !lowerCostFound ==>
                nSteps == if restartAfterSteps != 0 && old(nSteps) + 1 > restartAfterSteps then 0 else old(nSteps) + 1
      ensures work.Busy? ==> work == old(work) && curCost == old(curCost)
    {
      hide Inv, NodesOf;
      RootsApart(St(), minTree, work.tree, minCost, curCost);
      nSteps := nSteps + 1;
      lowerCostFound := accepted && Score(curCost) < Score(minCost);
      if lowerCostFound {
        AcceptTree();
      } else if restartAfterSteps != 0 && nSteps > restartAfterSteps {
        Restart();
      }
    }

    // ---- adding and deleting a pair

    method GetPair(p: Key) returns (o: nat, exists_: bool)
      ensures exists_ <==> p in pairs.Values
      ensures exists_ ==> o in pairs && pairs[o] == p
    {
      exists_ := p in pairs.Values;
      o := 0;
      if exists_ {
        o :| o in pairs && pairs[o] == p;
      }
    }

    // Offset x enters or leaves the vector of leaf ni, which nobody else names.
    method EditVec(ni: nat, x: nat, isDel: bool) returns (pi: nat)
      requires ni in nodes && INVALID !in pool
      requires nodes[ni].poolIndex == INVALID ==> !isDel
      requires nodes[ni].poolIndex != INVALID ==> nodes[ni].poolIndex in pool && pool[nodes[ni].poolIndex].refs == 1
      modifies this`nodes, this`pool
      ensures pi != INVALID && if old(nodes)[ni].poolIndex == INVALID then pi !in old(pool) else pi == old(nodes)[ni].poolIndex
      ensures St() == LeafStore(old(St()), ni, pi, Edited(old(VecOf(St(), ni)), x, isDel))
    {
      pi := nodes[ni].poolIndex;
      if isDel {
        pool := pool[pi := pool[pi].(vec := Drop(pool[pi].vec, x))];
      } else {
        if pi == INVALID {
          pi := NewVec([]);
          nodes := nodes[ni := nodes[ni].(poolIndex := pi)];
        }
        var vec := pool[pi].vec;
        pool := pool[pi := pool[pi].(vec := if x in vec then vec else vec + [x])];
      }
    }

    // The pair p at offset o enters or leaves the vector of leaf ni.
    method AddDelLeaf(ni: nat, p: Key, isDel: bool, ghost key: Key, ghost before: map<nat, Key>, ghost after: map<nat, Key>,
                      ghost o: nat, ghost a: set<nat>)
      requires Good(WithTable(St(), before), Leaf(ni), key) && ChangeKind(before, after, o, p, isDel) && Compatible(p, key)
      requires RefsOk(pool, a, {}) && PoolOf(WithTable(St(), before), Leaf(ni)) <= a
      requires o in pairs && pairs[o] == p && Injective(pairs)
      modifies this`nodes, this`pool, this`minCost
      ensures Edits(WithTable(old(St()), before), WithTable(St(), before), Leaf(ni), key, after, old(minCost), minCost, a,
                    !isDel && o in before)
    {
      hide Good, RefsOk, Exact, PoolOf, CostOf, Edited, ChangeKind, Compatible, Carried, EditFrame, AddDelOccupancy, Injective;
      ghost var st := WithTable(St(), before);
      LeafEditReady(st, ni, key, after, o, p, isDel, a);
      SamePair(pairs, p);
      var vec := VecOf(St(), ni);
      var l := |vec|;
      var x, found := GetPair(p);
      assert found && x == o;
      var pi := EditVec(ni, x, isDel);
      minCost := AddDelOccupancy(minCost, l, isDel);
      assert WithTable(St(), before) == LeafStore(st, ni, pi, Edited(vec, o, isDel));
      LeafEdits(st, ni, pi, a, after, key, o, p, isDel, old(minCost));
    }

    // All leaves below node ni that the pair can match under.
    method AddDelHelper(ni: nat, p: Key, isDel: bool, ghost t: Tree, ghost key: Key,
                        ghost before: map<nat, Key>, ghost after: map<nat, Key>, ghost o: nat, ghost a: set<nat>)
      requires Good(WithTable(St(), before), t, key) && t.ni == ni
      requires ChangeKind(before, after, o, p, isDel) && Compatible(p, key)
      requires RefsOk(pool, a, {}) && PoolOf(WithTable(St(), before), t) <= a
      requires o in pairs && pairs[o] == p && Injective(pairs)
      modifies this`nodes, this`pool, this`minCost
      ensures Edits(WithTable(old(St()), before), WithTable(St(), before), t, key, after, old(minCost), minCost, a,
                    !isDel && o in before)
      decreases t
    {
      hide Good, RefsOk, PoolOf, CostOf, ChangeKind, Compatible, Carried, EditFrame, Edits, Injective;
      ghost var st := WithTable(St(), before);
      ghost var c, again := minCost, !isDel && o in before;
      GoodParts(st, t, key);
      if nodes[ni].IsSplit() {
        var bit, n0, n1 := nodes[ni].splitBit, nodes[ni].sub0, nodes[ni].sub1;
        var unmasked := bit !in p.mask;
        var v := bit in p.value;
        ghost var k0, k1 := Key0(key, bit), Key1(key, bit);
        BranchSides(st, t, key, p);
        if unmasked || !v {
          AddDelHelper(n0, p, isDel, t.left, k0, before, after, o, a);
        } else {
          EditSkipped(st, t.left, k0, after, o, p, isDel, a, c, again);
        }
        ghost var st1, c1 := WithTable(St(), before), minCost;
        SideFacts(st, st1, t.left, k0, after, c, c1, a, again, unmasked || !v);
        EditLeftKeepsRight(st, st1, ni, t.left, t.right, key);
        ghost var a1 := a + PoolOf(st1, t.left);
        if unmasked || v {
          AddDelHelper(n1, p, isDel, t.right, k1, before, after, o, a1);
        } else {
          EditSkipped(st1, t.right, k1, after, o, p, isDel, a1, c1, again);
        }
        EditSplit(st, st1, WithTable(St(), before), ni, t.left, t.right, key, after, c, c1, minCost, a, again, unmasked || !v, unmasked || v);
      } else {
        AddDelLeaf(ni, p, isDel, key, before, after, o, a);
      }
    }

    // Adds a pair to the table or deletes one, and edits the leaves of the best
    // tree; a working copy is given up first.  To delete a pair that is not
    // there is a panic, in the first leaf reached.
    method AddDel(p: Key, isDel: bool) returns (panicked: bool)
      requires Valid()
      modifies this
      ensures panicked <==> isDel && p !in old(pairs).Values
      ensures panicked ==> Valid() && pairs == old(pairs) && minCost == old(minCost)
      ensures !panicked && isDel ==> exists o :: o in old(pairs) && old(pairs)[o] == p && pairs == old(pairs) - {o}
      ensures !panicked && !isDel ==> if p in old(pairs).Values then pairs == old(pairs)
                                      else exists o: nat :: o !in old(pairs) && pairs == old(pairs)[o := p]
      ensures minTree == old(minTree) && work == Idle && nSteps == 0
      ensures minRoot == old(minRoot) && curRoot == old(curRoot)
      ensures Inv(St(), minTree, Idle, CostOf(St(), minTree), curCost)
      ensures Valid() <==> isDel || p !in old(pairs).Values
    {
      hide Good, RefsOk, PoolOf, CostOf, NodesOf, ChangeKind, Compatible, Carried, EditFrame, Edits, Injective;
      Restart();
      ghost var st, before := St(), pairs;
      var o, found := GetPair(p);
      panicked := isDel && !found;
      if panicked {
        return;
      }
      ghost var after := pairs;
      if isDel {
        after := pairs - {o};
      } else {
        if !found {
          ghost var g := FreshIndex(pairs.Keys);
          o :| o !in pairs;
        }
        pairs := pairs[o := p];
        after := pairs;
      }
      TableStep(before, after, o, p, isDel);
      AddDelHelper(minRoot, p, isDel, minTree, EMPTY_KEY, before, after, o, PoolOf(st, minTree));
      if isDel {
        pairs := pairs - {o};
      }
      EditedInv(st, WithTable(St(), before), minTree, after, old(minCost), minCost, curCost, !isDel && o in before);
    }
  }
}

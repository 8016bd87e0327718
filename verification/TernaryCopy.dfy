// Copying a tree, giving one up, and walking down one: what each step does to
// the nodes and to the reference counts.
module TernaryCopies {
  import opened TernaryKeys
  import opened TernaryTree
  import opened TernarySteps
  import opened TernaryInvariant

  // u is a copy of t: the same shape, keys, split bits and leaf vectors.
  ghost predicate CopyOf(st: Store, t: Tree, u: Tree) {
    && t.ni in st.nodes && u.ni in st.nodes
    && st.nodes[t.ni].key == st.nodes[u.ni].key && st.nodes[t.ni].splitBit == st.nodes[u.ni].splitBit
    && st.nodes[t.ni].poolIndex == st.nodes[u.ni].poolIndex
    && match t
       case Leaf(_) => u.Leaf?
       case Split(_, l, r) => u.Split? && CopyOf(st, l, u.left) && CopyOf(st, r, u.right)
  }

  // A copy of a right tree over other nodes is right, and names the same vectors.
  lemma {:induction false} CopyIsGood(st: Store, t: Tree, u: Tree, key: Key)
    requires Good(st, t, key) && CopyOf(st, t, u) && LinkedIn(st, u)
    ensures Good(st, u, key) && PoolOf(st, u) == PoolOf(st, t) && CostOf(st, u) == CostOf(st, t)
  {
    match t
    case Leaf(n) =>
      assert VecOf(st, n) == VecOf(st, u.ni);
    case Split(n, l, r) =>
      CopyIsGood(st, l, u.left, Key0(key, st.nodes[n].splitBit));
      CopyIsGood(st, r, u.right, Key1(key, st.nodes[n].splitBit));
  }

  lemma {:induction false} CopyLeaves(st: Store, t: Tree, u: Tree)
    requires CopyOf(st, t, u)
    ensures Leaves(u) == Leaves(t)
  {
    match t
    case Leaf(_) =>
    case Split(_, l, r) =>
      CopyLeaves(st, l, u.left);
      CopyLeaves(st, r, u.right);
  }

  // The sub node links of the nodes of u give the tree u.
  ghost predicate LinkedIn(st: Store, u: Tree) {
    && u.ni in st.nodes && u.ni != INVALID
    && match u
       case Leaf(n) => st.nodes[n].sub0 == INVALID && st.nodes[n].sub1 == INVALID
       case Split(n, l, r) =>
         && st.nodes[n].sub0 == l.ni && st.nodes[n].sub1 == r.ni
         && LinkedIn(st, l) && LinkedIn(st, r)
         && n !in NodesOf(l) && n !in NodesOf(r) && NodesOf(l) !! NodesOf(r)
  }

  ghost predicate SameNodes(st: Store, st': Store, ns: set<nat>) {
    forall n :: n in ns && n in st.nodes ==> n in st'.nodes && st'.nodes[n] == st.nodes[n]
  }

  lemma {:induction false} LinkedFrame(st: Store, st': Store, u: Tree)
    requires LinkedIn(st, u) && SameNodes(st, st', NodesOf(u))
    ensures LinkedIn(st', u)
  {
    match u
    case Leaf(_) =>
    case Split(_, l, r) =>
      LinkedFrame(st, st', l);
      LinkedFrame(st, st', r);
  }

  lemma {:induction false} CopyFrame(st: Store, st': Store, t: Tree, u: Tree)
    requires CopyOf(st, t, u) && SameNodes(st, st', NodesOf(t)) && SameNodes(st, st', NodesOf(u))
    ensures CopyOf(st', t, u)
  {
    assert t.ni in NodesOf(t) && u.ni in NodesOf(u);
    match t
    case Leaf(_) =>
    case Split(_, l, r) =>
      CopyFrame(st, st', l, u.left);
      CopyFrame(st, st', r, u.right);
  }

  // No vector of pool is lost or changed.
  ghost predicate VecsKept(pool: map<nat, Shared>, pool': map<nat, Shared>) {
    forall q :: q in pool ==> q in pool' && pool'[q].vec == pool[q].vec
  }

  // u is a copy of t in st', which kept the vectors of st.
  ghost predicate Cloned(st: Store, st': Store, t: Tree, u: Tree) {
    LinkedIn(st', u) && CopyOf(st', t, u) && VecsKept(st.pool, st'.pool)
  }

  lemma {:induction false} ClonedFacts(st: Store, st': Store, t: Tree, u: Tree)
    requires Cloned(st, st', t, u)
    ensures VecsKept(st.pool, st'.pool) && u.ni in NodesOf(u)
  {
  }

  lemma {:induction false} ClonedFrame(st: Store, st1: Store, st2: Store, t: Tree, u: Tree)
    requires Cloned(st, st1, t, u) && SameNodes(st1, st2, NodesOf(t) + NodesOf(u)) && VecsKept(st1.pool, st2.pool)
    ensures Cloned(st, st2, t, u)
  {
    LinkedFrame(st1, st2, u);
    CopyFrame(st1, st2, t, u);
  }

  lemma {:induction false} ClonedSince(st: Store, st1: Store, st2: Store, t: Tree, u: Tree)
    requires Cloned(st1, st2, t, u) && VecsKept(st.pool, st1.pool)
    ensures Cloned(st, st2, t, u)
  {
  }

  lemma {:induction false} GoodParts(st: Store, t: Tree, key: Key)
    requires Good(st, t, key)
    ensures t.ni in st.nodes && t.ni in NodesOf(t) && (forall n :: n in NodesOf(t) ==> n in st.nodes)
    ensures st.nodes[t.ni].IsSplit() <==> t.Split?
    ensures PoolAt(st, t.ni) == (if t.Split? then {} else PoolOf(st, t)) && (t.Split? ==> st.nodes[t.ni].poolIndex == INVALID)
    ensures t.Split? ==>
              && st.nodes[t.ni].sub0 == t.left.ni && st.nodes[t.ni].sub1 == t.right.ni
              && Good(st, t.left, Key0(key, st.nodes[t.ni].splitBit)) && Good(st, t.right, Key1(key, st.nodes[t.ni].splitBit))
              && NodesOf(t.left) + NodesOf(t.right) <= NodesOf(t)
              && PoolOf(st, t) == PoolOf(st, t.left) + PoolOf(st, t.right) && PoolOf(st, t.left) !! PoolOf(st, t.right)
  {
    GoodNodes(st, t, key);
  }

  // The copy of a whole tree from those of its sides, once the root is filled in.
  lemma {:induction false} ClonedNode(st: Store, st': Store, t: Tree, u: Tree, key: Key)
    requires Good(st, t, key) && VecsKept(st.pool, st'.pool) && t.ni in st.nodes && st.nodes[t.ni].IsSplit() == u.Split?
    requires t.ni in st'.nodes && st'.nodes[t.ni] == st.nodes[t.ni] && u.ni in st'.nodes && u.ni != INVALID
    requires var a, b := st'.nodes[t.ni], st'.nodes[u.ni];
             a.key == b.key && a.splitBit == b.splitBit && a.poolIndex == b.poolIndex
    requires if u.Leaf? then st'.nodes[u.ni].sub0 == INVALID && st'.nodes[u.ni].sub1 == INVALID
             else
               && t.Split? && Cloned(st, st', t.left, u.left) && Cloned(st, st', t.right, u.right)
               && st'.nodes[u.ni].sub0 == u.left.ni && st'.nodes[u.ni].sub1 == u.right.ni
               && u.ni !in NodesOf(u.left) && u.ni !in NodesOf(u.right) && NodesOf(u.left) !! NodesOf(u.right)
    ensures Cloned(st, st', t, u)
  {
  }

  // m is st with the copied fields of si in di.
  ghost predicate CopiedTo(st: Store, m: Store, di: nat, si: nat) {
    && si in st.nodes && di in st.nodes && VecsKept(st.pool, m.pool)
    && var (s, d) := (st.nodes[si], st.nodes[di]);
       m.nodes == st.nodes[di := Node(s.key, s.splitBit, d.sub0, d.sub1, s.poolIndex)]
  }

  // Both sides were cloned below di, in st2, and then di itself.
  lemma CopiedSplit(st: Store, st2: Store, st3: Store, t: Tree, u0: Tree, u1: Tree, key: Key, di: nat)
    requires Good(st, t, key) && t.Split? && di in st.nodes && di !in NodesOf(t) && di != INVALID
    requires Cloned(st, st2, t.left, u0) && Cloned(st, st2, t.right, u1)
    requires NodesOf(u0) !! st.nodes.Keys && NodesOf(u1) !! st.nodes.Keys && NodesOf(u0) !! NodesOf(u1)
    requires st2.nodes.Keys == st.nodes.Keys + NodesOf(u0) + NodesOf(u1) && SameNodes(st, st2, st.nodes.Keys - {di})
    requires di in st2.nodes && st2.nodes[di] == st.nodes[di].(sub0 := u0.ni, sub1 := u1.ni)
    requires CopiedTo(st2, st3, di, t.ni)
    ensures var u := Split(di, u0, u1);
            && Cloned(st, st3, t, u) && (NodesOf(u) - {di}) !! st.nodes.Keys && st3.nodes.Keys == st.nodes.Keys + NodesOf(u)
            && SameNodes(st, st3, st.nodes.Keys - {di})
  {
    hide Good, CopyOf, LinkedIn, Cloned, PoolOf, CostOf;
    GoodParts(st, t, key);
    ClonedFacts(st, st2, t.left, u0);
    ClonedFrame(st, st2, st3, t.left, u0);
    ClonedFrame(st, st2, st3, t.right, u1);
    ClonedNode(st, st3, t, Split(di, u0, u1), key);
  }

  lemma CopiedLeaf(st: Store, st': Store, t: Tree, key: Key, di: nat)
    requires Good(st, t, key) && t.Leaf? && di in st.nodes && di != t.ni && di != INVALID
    requires st.nodes[di].sub0 == INVALID && st.nodes[di].sub1 == INVALID && CopiedTo(st, st', di, t.ni)
    ensures Cloned(st, st', t, Leaf(di)) && NodesOf(Leaf(di)) == {di} && st'.nodes.Keys == st.nodes.Keys
    ensures SameNodes(st, st', st.nodes.Keys - {di})
  {
    hide Good, CopyOf, LinkedIn, Cloned, PoolOf, CostOf;
    GoodParts(st, t, key);
    ClonedNode(st, st', t, Leaf(di), key);
  }

  // The children of a node of u are found in u at their own indices.
  lemma {:induction false} SubAtChild(st: Store, u: Tree, n: nat, key: Key)
    requires Good(st, u, key) && n in NodesOf(u) && SubAt(u, n).Split?
    ensures var l, r := SubAt(u, n).left, SubAt(u, n).right;
            && l.ni in NodesOf(u) && SubAt(u, l.ni) == l && r.ni in NodesOf(u) && SubAt(u, r.ni) == r
  {
    var l, r := SubAt(u, n).left, SubAt(u, n).right;
    assert l.ni in NodesOf(l) && r.ni in NodesOf(r);
    if u.ni != n {
      match u
      case Split(m, x, y) =>
        if n in NodesOf(x) {
          SubAtChild(st, x, n, Key0(key, st.nodes[m].splitBit));
        } else {
          SubAtChild(st, y, n, Key1(key, st.nodes[m].splitBit));
        }
    }
  }

  // Node n is in u, with the subtree s below it.
  ghost predicate At(st: Store, u: Tree, n: nat, s: Tree) {
    Good(st, u, EMPTY_KEY) && n in NodesOf(u) && SubAt(u, n) == s
  }

  // Node n of u has sub nodes.
  ghost predicate ParentIn(u: Tree, n: nat) {
    n in NodesOf(u) && SubAt(u, n).Split?
  }

  lemma {:induction false} AtRoot(st: Store, t: Tree, u: Tree, c: Cost, d: Cost)
    requires Inv(st, t, Busy(u), c, d)
    ensures At(st, u, u.ni, u) && u.ni in st.nodes && (st.nodes[u.ni].IsSplit() <==> u.Split?)
  {
    GoodParts(st, u, EMPTY_KEY);
  }

  lemma {:induction false} AtChild(st: Store, u: Tree, n: nat, s: Tree)
    requires At(st, u, n, s) && s.Split?
    ensures n in st.nodes && n != INVALID && ParentIn(u, n) && st.nodes[n].sub0 == s.left.ni && st.nodes[n].sub1 == s.right.ni
    ensures At(st, u, s.left.ni, s.left) && s.left.ni in st.nodes && (st.nodes[s.left.ni].IsSplit() <==> s.left.Split?)
    ensures At(st, u, s.right.ni, s.right) && s.right.ni in st.nodes && (st.nodes[s.right.ni].IsSplit() <==> s.right.Split?)
  {
    hide Good, PoolOf;
    GoodNodes(st, u, EMPTY_KEY);
    SubAtGood(st, u, n, EMPTY_KEY);
    SubAtPart(u, n);
    SubAtChild(st, u, n, EMPTY_KEY);
    GoodParts(st, s, st.nodes[n].key);
    GoodParts(st, s.left, Key0(st.nodes[n].key, st.nodes[n].splitBit));
    GoodParts(st, s.right, Key1(st.nodes[n].key, st.nodes[n].splitBit));
  }

  lemma {:induction false} AtLeaf(st: Store, u: Tree, n: nat, s: Tree)
    requires At(st, u, n, s) && s.Leaf?
    ensures LeafOf(u, n)
  {
    SubAtPart(u, n);
  }

  lemma {:induction false} ParentParts(st: Store, t: Tree, u: Tree, c: Cost, d: Cost, n: nat)
    requires Inv(st, t, Busy(u), c, d) && ParentIn(u, n)
    ensures n in st.nodes && st.nodes[n].sub0 in st.nodes && st.nodes[n].sub1 in st.nodes
    ensures !st.nodes[st.nodes[n].sub0].IsSplit() && !st.nodes[st.nodes[n].sub1].IsSplit() ==>
              JoinableAt(u, n, st.nodes[n].sub0, st.nodes[n].sub1)
  {
    hide Good;
    AtChild(st, u, n, SubAt(u, n));
    SubAtPart(u, n);
  }

  lemma {:induction false} LeafPairs(st: Store, t: Tree, u: Tree, c: Cost, d: Cost, n: nat)
    requires Inv(st, t, Busy(u), c, d) && LeafOf(u, n)
    ensures n in st.nodes && forall o :: o in VecOf(st, n) ==> o in st.pairs
  {
    hide Good, LeafOf;
    LeafFacts(st, t, u, c, d, n);
  }

  lemma {:induction false} RootsApart(st: Store, t: Tree, u: Tree, c: Cost, d: Cost)
    requires Inv(st, t, Busy(u), c, d)
    ensures t.ni !in NodesOf(u) && u.ni !in NodesOf(t) && t.ni in NodesOf(t) && u.ni in NodesOf(u)
  {
    hide Good, CostOf, PoolOf;
  }

  lemma {:induction false} SwapInv(st: Store, t: Tree, u: Tree, c: Cost, d: Cost)
    requires Inv(st, t, Busy(u), c, d)
    ensures Inv(st, u, Busy(t), d, c) && RefsOk(st.pool, PoolOf(st, u), PoolOf(st, t))
  {
    hide Good;
    SwapRefs(st.pool, PoolOf(st, t), PoolOf(st, u));
  }

  // ---- giving up a tree, one node after the other

  // pool' is pool after the vectors gone lost a reference each; keep is still named.
  ghost predicate Released(pool: map<nat, Shared>, pool': map<nat, Shared>, keep: set<nat>, gone: set<nat>) {
    && forall q :: q in pool && (q !in gone || q in keep) ==> q in pool' && pool'[q].vec == pool[q].vec
  }

  lemma ReleasedTwice(p0: map<nat, Shared>, p1: map<nat, Shared>, p2: map<nat, Shared>, keep: set<nat>, g: set<nat>, h: set<nat>)
    requires Released(p0, p1, keep, g) && Released(p1, p2, keep, h)
    ensures Released(p0, p2, keep, g + h)
  {
  }

  // After the left side was given up, the right one is as it was.
  lemma {:induction false} FreedLeft(st: Store, st1: Store, t: Tree, key: Key, keep: set<nat>, b: set<nat>)
    requires Good(st, t, key) && t.Split? && t.ni in st.nodes
    requires st1.nodes == st.nodes - NodesOf(t.left) && st1.pairs == st.pairs
    requires Released(st.pool, st1.pool, keep, PoolOf(st, t.left)) && RefsOk(st1.pool, keep, b)
    ensures Good(st1, t.right, Key1(key, st.nodes[t.ni].splitBit)) && PoolOf(st1, t.right) == PoolOf(st, t.right)
    ensures t.ni in st1.nodes && st1.nodes[t.ni] == st.nodes[t.ni]
    ensures t.ni !in NodesOf(t.right)
  {
    GoodFrame(st, st1, t.right, Key1(key, st.nodes[t.ni].splitBit));
  }

  lemma FreedNode(nodes: map<nat, Node>, pool: map<nat, Shared>, keep: set<nat>, b: set<nat>, i: nat)
    requires RefsOk(pool, keep, b) && i in nodes && nodes[i].poolIndex == INVALID
    ensures INVALID !in pool && DropRef(pool, nodes, i) == pool
  {
  }

  lemma {:induction false} FreedLeaf(st: Store, t: Tree, key: Key, keep: set<nat>, b: set<nat>)
    requires Good(st, t, key) && t.Leaf? && RefsOk(st.pool, keep, b) && PoolOf(st, t) <= b
    ensures NodeRefs(st.pool, st.nodes, t.ni) && INVALID !in st.pool && NodesOf(t) == {t.ni}
    ensures RefsOk(DropRef(st.pool, st.nodes, t.ni), keep, b - PoolOf(st, t))
    ensures Released(st.pool, DropRef(st.pool, st.nodes, t.ni), keep, PoolOf(st, t))
  {
    assert PoolOf(st, t) == PoolAt(st, t.ni);
    DropRefOk(st.pool, st.nodes, keep, b, t.ni);
  }

  // ---- the invariant, when the working copy goes and when a new one comes

  lemma {:induction false} RestartInv(st: Store, st': Store, t: Tree, u: Tree, c: Cost, d: Cost)
    requires Inv(st, t, Busy(u), c, d)
    requires st'.nodes == st.nodes - NodesOf(u) && st'.pairs == st.pairs
    requires RefsOk(st'.pool, PoolOf(st, t), PoolOf(st, u) - PoolOf(st, u))
    requires Released(st.pool, st'.pool, PoolOf(st, t), PoolOf(st, u))
    ensures Inv(st', t, Idle, c, d)
  {
    hide Good, CostOf, PoolOf;
    assert PoolOf(st, u) - PoolOf(st, u) == {};
    GoodFrame(st, st', t, EMPTY_KEY);
  }

  lemma {:induction false} NewNodeKeeps(st: Store, st1: Store, t: Tree, c: Cost, d: Cost, ni: nat)
    requires Inv(st, t, Idle, c, d) && ni !in st.nodes && ni in st1.nodes
    requires SameNodes(st, st1, st.nodes.Keys) && st1.pool == st.pool && st1.pairs == st.pairs
    ensures Good(st1, t, EMPTY_KEY) && PoolOf(st1, t) == PoolOf(st, t) && ni !in NodesOf(t)
    ensures RefsOk(st.pool, PoolOf(st, t), {})
  {
    hide Good, CostOf, PoolOf;
    GoodNodes(st, t, EMPTY_KEY);
    GoodFrame(st, st1, t, EMPTY_KEY);
  }

  lemma {:induction false} CloneInv(st: Store, ni: nat, st': Store, t: Tree, u: Tree, c: Cost, d: Cost)
    requires Inv(st, t, Idle, c, d) && ni !in st.nodes && ni in NodesOf(u)
    requires (NodesOf(u) - {ni}) !! st.nodes.Keys && st'.nodes.Keys == st.nodes.Keys + NodesOf(u) && st'.pairs == st.pairs
    requires SameNodes(st, st', st.nodes.Keys) && Cloned(st, st', t, u)
    requires RefsOk(st'.pool, PoolOf(st, t), PoolOf(st, t))
    ensures Inv(st', t, Busy(u), c, c)
  {
    hide Good, CostOf, PoolOf, CopyOf, LinkedIn;
    GoodNodes(st, t, EMPTY_KEY);
    GoodFrame(st, st', t, EMPTY_KEY);
    CopyIsGood(st', t, u, EMPTY_KEY);
  }

  // st1 is st with the new node ni, below which the copy u was made.
  lemma CloneDone(st: Store, st1: Store, st': Store, t: Tree, u: Tree, c: Cost, d: Cost, ni: nat)
    requires Inv(st, t, Idle, c, d) && ni !in st.nodes && ni in st1.nodes && u.ni == ni
    requires st1 == Store(st.nodes[ni := st1.nodes[ni]], st.pool, st.pairs)
    requires Cloned(st1, st', t, u) && (NodesOf(u) - {ni}) !! st1.nodes.Keys && st'.nodes.Keys == st1.nodes.Keys + NodesOf(u)
    requires SameNodes(st1, st', st1.nodes.Keys - {ni}) && st'.pairs == st.pairs
    requires RefsOk(st'.pool, PoolOf(st, t), PoolOf(st, t))
    ensures Inv(st', t, Busy(u), c, c) && CopyOf(st', t, u)
  {
    hide Inv, CopyOf, LinkedIn, PoolOf, NodesOf;
    ClonedSince(st, st1, st', t, u);
    ClonedFacts(st, st', t, u);
    CloneInv(st, ni, st', t, u, c, d);
  }

  // st1 is st with the new node ni below di; the copy u was made at ni.
  lemma SubCloned(st: Store, st1: Store, st': Store, t: Tree, u: Tree, di: nat, ni: nat)
    requires ni !in st.nodes && di in st.nodes && ni in st1.nodes && di in st1.nodes && u.ni == ni
    requires st1 == Store(st.nodes[ni := st1.nodes[ni]][di := st1.nodes[di]], st.pool, st.pairs)
    requires Cloned(st1, st', t, u) && (NodesOf(u) - {ni}) !! st1.nodes.Keys && st'.nodes.Keys == st1.nodes.Keys + NodesOf(u)
    requires SameNodes(st1, st', st1.nodes.Keys - {ni})
    ensures Cloned(st, st', t, u) && NodesOf(u) !! st.nodes.Keys && st'.nodes.Keys == st.nodes.Keys + NodesOf(u)
    ensures SameNodes(st, st', st.nodes.Keys - {di}) && di in st'.nodes && st'.nodes[di] == st1.nodes[di]
  {
    hide CopyOf, LinkedIn, NodesOf;
    ClonedSince(st, st1, st', t, u);
    ClonedFacts(st, st', t, u);
  }

  // The left side was cloned below di; the right one is still as it was.
  lemma RightAfterLeft(st: Store, st1: Store, t: Tree, u0: Tree, key: Key, di: nat)
    requires Good(st, t, key) && t.Split? && di !in NodesOf(t) && t.ni in st.nodes
    requires Cloned(st, st1, t.left, u0) && SameNodes(st, st1, st.nodes.Keys - {di}) && st1.pairs == st.pairs && INVALID !in st1.pool
    ensures var k1 := Key1(key, st.nodes[t.ni].splitBit);
            Good(st1, t.right, k1) && PoolOf(st1, t.right) == PoolOf(st, t.right)
    ensures t.ni in st1.nodes && st1.nodes[t.ni] == st.nodes[t.ni]
    ensures NodesOf(t.left) <= st.nodes.Keys && di !in NodesOf(t.left) && di !in NodesOf(t.right)
  {
    hide Good, CopyOf, LinkedIn, Cloned, PoolOf, CostOf;
    GoodParts(st, t, key);
    ClonedFacts(st, st1, t.left, u0);
    GoodNodes(st, t, key);
    GoodFrame(st, st1, t.right, Key1(key, st.nodes[t.ni].splitBit));
  }

  // Both sides were cloned below di, the left one first.
  lemma SubsCloned(st: Store, st1: Store, st2: Store, l: Tree, r: Tree, u0: Tree, u1: Tree, di: nat)
    requires Cloned(st, st1, l, u0) && Cloned(st1, st2, r, u1) && di in st.nodes
    requires NodesOf(l) <= st.nodes.Keys && di !in NodesOf(l)
    requires NodesOf(u0) !! st.nodes.Keys && st1.nodes.Keys == st.nodes.Keys + NodesOf(u0) && SameNodes(st, st1, st.nodes.Keys - {di})
    requires NodesOf(u1) !! st1.nodes.Keys && st2.nodes.Keys == st1.nodes.Keys + NodesOf(u1) && SameNodes(st1, st2, st1.nodes.Keys - {di})
    ensures Cloned(st, st2, l, u0) && Cloned(st, st2, r, u1)
    ensures NodesOf(u1) !! st.nodes.Keys && NodesOf(u0) !! NodesOf(u1)
    ensures st2.nodes.Keys == st.nodes.Keys + NodesOf(u0) + NodesOf(u1) && SameNodes(st, st2, st.nodes.Keys - {di})
  {
    hide CopyOf, LinkedIn, Cloned, NodesOf;
    ClonedFacts(st, st1, l, u0);
    ClonedFacts(st1, st2, r, u1);
    ClonedFrame(st, st1, st2, l, u0);
    ClonedSince(st, st1, st2, r, u1);
  }

  lemma BestTree(st: Store, t: Tree, u: Tree, c: Cost, d: Cost)
    requires Inv(st, t, Busy(u), c, d)
    ensures Good(st, t, EMPTY_KEY) && RefsOk(st.pool, PoolOf(st, u), PoolOf(st, t)) && u.ni != t.ni
    ensures PoolOf(st, t) - PoolOf(st, t) == {}
  {
    hide Good, PoolOf, CostOf;
    SwapRefs(st.pool, PoolOf(st, t), PoolOf(st, u));
    RootsApart(st, t, u, c, d);
  }

  lemma AllocIs(ns: map<nat, Node>, n: nat, a: nat, b: nat, bit: nat)
    requires n in ns && a !in ns && b !in ns && a != b
    ensures var nd, new_ := ns[n], Node(EMPTY_KEY, 0, INVALID, INVALID, INVALID);
            ns[a := new_][b := new_][n := nd.(splitBit := bit, sub0 := a, sub1 := b)]
              [a := new_.(key := Key0(nd.key, bit))][b := new_.(key := Key1(nd.key, bit))]
            == ns[a := new_.(key := Key0(nd.key, bit))][b := new_.(key := Key1(nd.key, bit))]
                 [n := nd.(splitBit := bit, sub0 := a, sub1 := b)]
  {
  }
}

// The invariant over the best tree and the working copy, and how it survives a
// split and a join of the working copy.
module TernaryInvariant {
  import opened TernaryKeys
  import opened TernaryTree
  import opened TernarySteps

  // The working copy, while there is one.
  datatype Work = Idle | Busy(tree: Tree)

  function WorkNodes(w: Work): set<nat> {
    if w.Busy? then NodesOf(w.tree) else {}
  }

  function WorkPool(st: Store, w: Work): set<nat> {
    if w.Busy? then PoolOf(st, w.tree) else {}
  }

  ghost predicate Injective(pairs: map<nat, Key>) {
    forall o, q :: o in pairs && q in pairs && pairs[o] == pairs[q] ==> o == q
  }

  // t is the best tree so far with cost c, w the working copy with cost d.
  ghost predicate Inv(st: Store, t: Tree, w: Work, c: Cost, d: Cost) {
    && Good(st, t, EMPTY_KEY) && CostOf(st, t) == c
    && (w.Busy? ==> Good(st, w.tree, EMPTY_KEY) && CostOf(st, w.tree) == d)
    && NodesOf(t) !! WorkNodes(w) && st.nodes.Keys == NodesOf(t) + WorkNodes(w)
    && RefsOk(st.pool, PoolOf(st, t), WorkPool(st, w))
    && Injective(st.pairs)
  }

  // A leaf of the working copy.
  ghost predicate LeafOf(u: Tree, n: nat) {
    n in NodesOf(u) && SubAt(u, n) == Leaf(n)
  }

  // u' is u with leaf n split, or with the two leaves below n joined.
  ghost predicate SplitOf(u: Tree, u': Tree, n: nat) {
    exists a: nat, b: nat :: u' == Replace(u, n, Split(n, Leaf(a), Leaf(b)))
  }

  ghost predicate JoinOf(u: Tree, u': Tree, n: nat) {
    u' == Replace(u, n, Leaf(n))
  }

  lemma ExactMembers(vec: seq<nat>, pairs: map<nat, Key>, key: Key)
    requires Exact(vec, pairs, key)
    ensures forall o :: o in vec ==> o in pairs
  {
  }

  lemma {:induction false} LeafFacts(st: Store, t: Tree, u: Tree, c: Cost, d: Cost, n: nat)
    requires Inv(st, t, Busy(u), c, d) && LeafOf(u, n)
    ensures n in st.nodes && GoodLeaf(st, n, st.nodes[n].key) && n !in NodesOf(t)
    ensures PoolAt(st, n) <= PoolOf(st, u)
    ensures VecOf(st, n) != [] ==> st.nodes[n].poolIndex in st.pool && st.pool[st.nodes[n].poolIndex].refs > 0
                                   && st.nodes[n].poolIndex in PoolOf(st, u)
  {
    SubAtGood(st, u, n, EMPTY_KEY);
    SubAtPool(st, u, n);
    assert Good(st, Leaf(n), st.nodes[n].key);
    assert PoolOf(st, Leaf(n)) == PoolAt(st, n);
  }

  // What the other tree and the counts need when the working copy changes from
  // u to u' while vectors in gone are given up and those in come are new.
  lemma {:induction false} WorkChanged(st: Store, st': Store, t: Tree, u: Tree, u': Tree, c: Cost, d: Cost, d': Cost)
    requires Inv(st, t, Busy(u), c, d)
    requires Agrees(st, st', NodesOf(t), PoolOf(st, t))
    requires Good(st', u', EMPTY_KEY) && CostOf(st', u') == d'
    requires NodesOf(u') !! NodesOf(t) && st'.nodes.Keys == NodesOf(t) + NodesOf(u')
    requires RefsOk(st'.pool, PoolOf(st, t), PoolOf(st', u'))
    ensures Inv(st', t, Busy(u'), c, d')
  {
    GoodFrame(st, st', t, EMPTY_KEY);
  }

  lemma {:induction false} SplitRefs(pool: map<nat, Shared>, a: set<nat>, b: set<nat>, p0: nat, p1: nat, v0: seq<nat>, v1: seq<nat>, q: nat)
    requires RefsOk(pool, a, b) && p0 !in pool && p1 !in pool && p0 != p1 && p0 != INVALID && p1 != INVALID && q in b
    ensures q in pool && pool[q].refs > 0
    ensures var pool' := PutRef(pool[p0 := Shared(v0, 1)][p1 := Shared(v1, 1)], q);
            && RefsOk(pool', a, b - {q} + {p0, p1})
            && forall x :: x in pool && (x != q || x in a) ==> x in pool' && pool'[x].vec == pool[x].vec
  {
    NewRefOk(pool, a, b, p0, v0);
    NewRefOk(pool[p0 := Shared(v0, 1)], a, b + {p0}, p1, v1);
    PutRefOk(pool[p0 := Shared(v0, 1)][p1 := Shared(v1, 1)], a, b + {p0} + {p1}, q);
    assert b + {p0} + {p1} - {q} == b - {q} + {p0, p1};
  }

  // What a split changes of the nodes, and what it leaves of the vectors.
  lemma SplitAgrees(st: Store, st': Store, n: nat, a: nat, b: nat, ns: set<nat>, ps: set<nat>)
    requires (forall x :: x in st.nodes && x !in {n, a, b} ==> x in st'.nodes && st'.nodes[x] == st.nodes[x]) && st'.pairs == st.pairs
    requires n !in ns && a !in ns && b !in ns && INVALID !in st'.pool
    requires forall x :: x in ps && x in st.pool ==> x in st'.pool && st'.pool[x].vec == st.pool[x].vec
    ensures Agrees(st, st', ns, ps)
  {
  }

  lemma SplitNodes(st: Store, n: nat, bit: nat, a: nat, b: nat, p0: nat, p1: nat, v0: seq<nat>, v1: seq<nat>)
    requires n in st.nodes && st.nodes[n].poolIndex in st.pool && st.pool[st.nodes[n].poolIndex].refs > 0 && FreshFor(st, a, b, p0, p1)
    ensures var st' := SplitStore(st, n, bit, a, b, p0, p1, v0, v1);
            && st'.nodes.Keys == st.nodes.Keys + {a, b} && st'.pairs == st.pairs
            && forall x :: x in st.nodes && x !in {n, a, b} ==> x in st'.nodes && st'.nodes[x] == st.nodes[x]
    ensures a !in st.nodes && b !in st.nodes && p0 !in st.pool && p1 !in st.pool
    ensures NodesOf(Split(n, Leaf(a), Leaf(b))) == {n, a, b} && NodesOf(Leaf(n)) == {n}
  {
    assert NodesOf(Leaf(a)) == {a} && NodesOf(Leaf(b)) == {b};
  }

  lemma {:induction false} SplitExchange(st: Store, t: Tree, u: Tree, n: nat, bit: nat, a: nat, b: nat, p0: nat, p1: nat,
                                         v0: seq<nat>, v1: seq<nat>, key: Key)
    requires n in st.nodes && n in NodesOf(u) && SubAt(u, n) == Leaf(n) && n !in NodesOf(t)
    requires st.nodes[n].poolIndex in st.pool && st.pool[st.nodes[n].poolIndex].refs > 0 && FreshFor(st, a, b, p0, p1)
    requires st.nodes.Keys == NodesOf(t) + NodesOf(u) && PoolOf(st, u) <= st.pool.Keys && PoolOf(st, t) <= st.pool.Keys
    requires PoolOf(st, Leaf(n)) == {st.nodes[n].poolIndex}
    requires var q, st' := st.nodes[n].poolIndex, SplitStore(st, n, bit, a, b, p0, p1, v0, v1);
             && Good(st', Split(n, Leaf(a), Leaf(b)), key) && PoolOf(st', Split(n, Leaf(a), Leaf(b))) == {p0, p1}
             && INVALID !in st'.pool
             && forall x :: x in st.pool && (x != q || x in PoolOf(st, t)) ==> x in st'.pool && st'.pool[x].vec == st.pool[x].vec
    ensures var st' := SplitStore(st, n, bit, a, b, p0, p1, v0, v1);
            && Exchange(st, st', u, SubAt(u, n), Split(n, Leaf(a), Leaf(b)), key)
            && Agrees(st, st', NodesOf(t), PoolOf(st, t))
            && NodesOf(Split(n, Leaf(a), Leaf(b))) == {n, a, b} && st'.nodes.Keys == st.nodes.Keys + {a, b}
  {
    hide Good, PoolOf, NodesOf, SubAt, SplitStore, Agrees, FreshFor;
    SplitNodes(st, n, bit, a, b, p0, p1, v0, v1);
    var st' := SplitStore(st, n, bit, a, b, p0, p1, v0, v1);
    SplitAgrees(st, st', n, a, b, NodesOf(t), PoolOf(st, t));
    SplitAgrees(st, st', n, a, b, NodesOf(u) - NodesOf(Leaf(n)), PoolOf(st, u) - PoolOf(st, Leaf(n)));
  }

  lemma {:induction false} SplitInv(st: Store, t: Tree, u: Tree, c: Cost, d: Cost, n: nat, bit: nat, a: nat, b: nat, p0: nat, p1: nat)
    requires Inv(st, t, Busy(u), c, d) && LeafOf(u, n) && n in st.nodes && bit !in st.nodes[n].key.mask
    requires VecOf(st, n) != [] && FreshFor(st, a, b, p0, p1)
    requires st.nodes[n].poolIndex in st.pool && st.pool[st.nodes[n].poolIndex].refs > 0
    ensures var v := VecOf(st, n);
            var v0, v1 := Side(v, st.pairs, bit, false), Side(v, st.pairs, bit, true);
            Inv(SplitStore(st, n, bit, a, b, p0, p1, v0, v1), t, Busy(Replace(u, n, Split(n, Leaf(a), Leaf(b)))), c,
                d.Minus(CostOfSize(|v|)).Plus(CostOfSize(|v0|).Plus(CostOfSize(|v1|))))
  {
    hide Good, RefsOk, CostOf, PoolOf, Side, Exact, GoodLeaf, Cost.Plus, Cost.Minus, CostOfSize, Replace, SubAt, SplitStore, PutRef, Exchange, Agrees;
    var v := VecOf(st, n);
    var v0, v1 := Side(v, st.pairs, bit, false), Side(v, st.pairs, bit, true);
    var st' := SplitStore(st, n, bit, a, b, p0, p1, v0, v1);
    var key, q := st.nodes[n].key, st.nodes[n].poolIndex;
    var s := Split(n, Leaf(a), Leaf(b));
    LeafFacts(st, t, u, c, d, n);
    SplitStoreGood(st, n, bit, a, b, p0, p1, key);
    SplitRefs(st.pool, PoolOf(st, t), PoolOf(st, u), p0, p1, v0, v1, q);
    SplitStorePool(st, n, bit, a, b, p0, p1, v0, v1);
    GoodNodes(st, t, EMPTY_KEY);
    GoodNodes(st, u, EMPTY_KEY);
    PoolInvalid(st'.pool, PoolOf(st, t), PoolOf(st, u) - {q} + {p0, p1});
    LeafPool(st, n);
    SplitExchange(st, t, u, n, bit, a, b, p0, p1, v0, v1, key);
    ReplaceGood(st, st', u, n, s, EMPTY_KEY);
    assert PoolOf(st, u) - {q} + {p0, p1} == PoolOf(st', Replace(u, n, s));
    WorkChanged(st, st', t, u, Replace(u, n, s), c, d, d.Minus(CostOfSize(|v|)).Plus(CostOfSize(|v0|).Plus(CostOfSize(|v1|))));
  }

  // What the split itself uses.
  lemma SplitReady(st: Store, t: Tree, u: Tree, c: Cost, d: Cost, n: nat)
    requires Inv(st, t, Busy(u), c, d) && LeafOf(u, n)
    ensures n in st.nodes && INVALID !in st.pool && (forall o :: o in VecOf(st, n) ==> o in st.pairs)
    ensures st.nodes[n].sub0 == INVALID && st.nodes[n].sub1 == INVALID
    ensures VecOf(st, n) != [] ==> st.nodes[n].poolIndex in st.pool && st.pool[st.nodes[n].poolIndex].refs > 0
  {
    hide Good, PoolOf, CostOf, NodesOf, RefsOk, VecOf, Injective, Exact;
    LeafFacts(st, t, u, c, d, n);
    PoolInvalid(st.pool, PoolOf(st, t), PoolOf(st, u));
    ExactMembers(VecOf(st, n), st.pairs, st.nodes[n].key);
  }

  // Two new vectors given back leave the pool as it was.
  lemma TakenBack(pool: map<nat, Shared>, p0: nat, v0: seq<nat>, p1: nat, v1: seq<nat>)
    requires p0 !in pool && p1 !in pool && p0 != p1
    ensures var pool' := pool[p0 := Shared(v0, 1)][p1 := Shared(v1, 1)];
            && p0 in pool' && pool'[p0].refs > 0
            && p1 in PutRef(pool', p0) && PutRef(pool', p0)[p1].refs > 0
            && PutRef(PutRef(pool', p0), p1) == pool
  {
  }

  lemma SplitStoreIs(st: Store, n: nat, bit: nat, a: nat, b: nat, p0: nat, p1: nat, v0: seq<nat>, v1: seq<nat>, st': Store)
    requires n in st.nodes && st.nodes[n].poolIndex in st.pool && st.pool[st.nodes[n].poolIndex].refs > 0
    requires p0 !in st.pool && p1 !in st.pool && p0 != p1 && st'.pairs == st.pairs
    requires st'.pool == PutRef(st.pool[p0 := Shared(v0, 1)][p1 := Shared(v1, 1)], st.nodes[n].poolIndex)
    requires var key := st.nodes[n].key;
             st'.nodes == st.nodes[a := Node(Key0(key, bit), 0, INVALID, INVALID, p0)]
                            [b := Node(Key1(key, bit), 0, INVALID, INVALID, p1)][n := Node(key, bit, a, b, INVALID)]
    ensures st' == SplitStore(st, n, bit, a, b, p0, p1, v0, v1)
  {
  }

  // A split adds a leaf, a join takes one.
  lemma SplitLeaves(st: Store, t: Tree, u: Tree, c: Cost, d: Cost, n: nat, a: nat, b: nat)
    requires Inv(st, t, Busy(u), c, d) && LeafOf(u, n)
    ensures Leaves(Replace(u, n, Split(n, Leaf(a), Leaf(b)))) == Leaves(u) + 1
  {
    hide Good, PoolOf, CostOf, Replace;
    ReplaceLeaves(st, u, n, Split(n, Leaf(a), Leaf(b)), EMPTY_KEY);
    assert Leaves(Split(n, Leaf(a), Leaf(b))) == Leaves(Leaf(a)) + Leaves(Leaf(b));
  }

  lemma JoinLeavesLess(st: Store, t: Tree, u: Tree, c: Cost, d: Cost, n: nat, a: nat, b: nat)
    requires Inv(st, t, Busy(u), c, d) && JoinableAt(u, n, a, b)
    ensures Leaves(Replace(u, n, Leaf(n))) == Leaves(u) - 1
  {
    hide Good, PoolOf, CostOf, Replace;
    ReplaceLeaves(st, u, n, Leaf(n), EMPTY_KEY);
    assert Leaves(Split(n, Leaf(a), Leaf(b))) == Leaves(Leaf(a)) + Leaves(Leaf(b));
  }

  lemma SplitOfIs(u: Tree, n: nat, a: nat, b: nat)
    ensures SplitOf(u, Replace(u, n, Split(n, Leaf(a), Leaf(b))), n)
  {
  }

  lemma SplitStorePool(st: Store, n: nat, bit: nat, a: nat, b: nat, p0: nat, p1: nat, v0: seq<nat>, v1: seq<nat>)
    requires n in st.nodes && st.nodes[n].poolIndex in st.pool && st.pool[st.nodes[n].poolIndex].refs > 0
    requires p0 !in st.pool && p1 !in st.pool
    ensures SplitStore(st, n, bit, a, b, p0, p1, v0, v1).pool == PutRef(st.pool[p0 := Shared(v0, 1)][p1 := Shared(v1, 1)], st.nodes[n].poolIndex)
    ensures SplitStore(st, n, bit, a, b, p0, p1, v0, v1).pairs == st.pairs
  {
  }

  lemma {:induction false} PoolInvalid(pool: map<nat, Shared>, a: set<nat>, b: set<nat>)
    requires RefsOk(pool, a, b)
    ensures INVALID !in pool && pool.Keys == a + b
    ensures forall x :: x in pool ==> pool[x].refs > 0
  {
  }

  lemma {:induction false} LeafPool(st: Store, n: nat)
    ensures PoolOf(st, Leaf(n)) == PoolAt(st, n) && NodesOf(Leaf(n)) == {n}
    ensures CostOf(st, Leaf(n)) == CostOfSize(|VecOf(st, n)|)
  {
  }

  // ---- joining

  // Node n with two leaves below.
  ghost predicate JoinableAt(u: Tree, n: nat, a: nat, b: nat) {
    n in NodesOf(u) && SubAt(u, n) == Split(n, Leaf(a), Leaf(b))
  }

  lemma {:induction false} JoinFacts(st: Store, t: Tree, u: Tree, c: Cost, d: Cost, n: nat, a: nat, b: nat)
    requires Inv(st, t, Busy(u), c, d) && JoinableAt(u, n, a, b)
    ensures n in st.nodes && Good(st, Split(n, Leaf(a), Leaf(b)), st.nodes[n].key)
    ensures st.nodes[n].sub0 == a && st.nodes[n].sub1 == b && n != a && n != b && a != b
    ensures GoodLeaf(st, a, Key0(st.nodes[n].key, st.nodes[n].splitBit)) && GoodLeaf(st, b, Key1(st.nodes[n].key, st.nodes[n].splitBit))
    ensures {n, a, b} <= NodesOf(u) && PoolAt(st, a) !! PoolAt(st, b) && PoolAt(st, a) + PoolAt(st, b) <= PoolOf(st, u)
    ensures PoolOf(st, Split(n, Leaf(a), Leaf(b))) == PoolAt(st, a) + PoolAt(st, b)
    ensures CostOf(st, Split(n, Leaf(a), Leaf(b))) == CostOfSize(|VecOf(st, a)|).Plus(CostOfSize(|VecOf(st, b)|))
  {
    SubAtGood(st, u, n, EMPTY_KEY);
    SubAtPool(st, u, n);
    SubAtPart(u, n);
    var s := Split(n, Leaf(a), Leaf(b));
    assert Good(st, s, st.nodes[n].key);
    assert NodesOf(s) == {n} + {a} + {b};
    assert PoolOf(st, s) == PoolOf(st, Leaf(a)) + PoolOf(st, Leaf(b));
    assert Good(st, Leaf(a), Key0(st.nodes[n].key, st.nodes[n].splitBit));
    assert Good(st, Leaf(b), Key1(st.nodes[n].key, st.nodes[n].splitBit));
    assert NodesOf(Leaf(a)) == {a} && NodesOf(Leaf(b)) == {b};
  }

  lemma LeafReady(st: Store, a: nat, key: Key, x: set<nat>, y: set<nat>)
    requires GoodLeaf(st, a, key) && RefsOk(st.pool, x, y) && PoolAt(st, a) <= y
    ensures NodeRefs(st.pool, st.nodes, a) && forall o :: o in VecOf(st, a) ==> o in st.pairs
  {
  }

  // What the join itself uses.
  lemma {:induction false} JoinReady(st: Store, t: Tree, u: Tree, c: Cost, d: Cost, n: nat, a: nat, b: nat)
    requires Inv(st, t, Busy(u), c, d) && JoinableAt(u, n, a, b)
    ensures n in st.nodes && st.nodes[n].sub0 == a && st.nodes[n].sub1 == b && n != a && n != b && a != b
    ensures NodeRefs(st.pool, st.nodes, a) && NodeRefs(st.pool, st.nodes, b) && PoolAt(st, a) !! PoolAt(st, b)
    ensures INVALID !in st.pool && a in st.nodes && b in st.nodes && forall o :: o in VecOf(st, b) ==> o in st.pairs
  {
    hide Good, GoodLeaf, JoinableAt, PoolOf, CostOf, NodesOf, RefsOk, VecOf, Injective, PoolAt;
    JoinFacts(st, t, u, c, d, n, a, b);
    PoolInvalid(st.pool, PoolOf(st, t), PoolOf(st, u));
    LeafReady(st, a, Key0(st.nodes[n].key, st.nodes[n].splitBit), PoolOf(st, t), PoolOf(st, u));
    LeafReady(st, b, Key1(st.nodes[n].key, st.nodes[n].splitBit), PoolOf(st, t), PoolOf(st, u));
  }

  lemma NodeRefsKept(pool: map<nat, Shared>, nodes: map<nat, Node>, a: nat, p: nat, v: seq<nat>)
    requires NodeRefs(pool, nodes, a) && p !in pool
    ensures NodeRefs(pool[p := Shared(v, 1)], nodes, a)
  {
  }

  lemma PoolAtSame(st: Store, st': Store, a: nat, b: nat)
    requires st'.nodes == st.nodes
    ensures PoolAt(st', a) == PoolAt(st, a) && PoolAt(st', b) == PoolAt(st, b)
  {
  }

  lemma JoinStoreIs(st: Store, n: nat, p: nat, v: seq<nat>, st': Store)
    requires n in st.nodes && st'.pairs == st.pairs
    requires var a, b := st.nodes[n].sub0, st.nodes[n].sub1;
             var pool0 := if p == INVALID then st.pool else st.pool[p := Shared(v, 1)];
             && st'.nodes == st.nodes[n := Node(st.nodes[n].key, 0, INVALID, INVALID, p)] - {a, b}
             && st'.pool == DropRef(DropRef(pool0, st.nodes, a), st.nodes, b)
    ensures st' == JoinStore(st, n, p, v)
  {
  }

  lemma {:induction false} DropRefOk(pool: map<nat, Shared>, nodes: map<nat, Node>, x: set<nat>, y: set<nat>, a: nat)
    requires RefsOk(pool, x, y)
    requires a in nodes && (nodes[a].poolIndex != INVALID ==> nodes[a].poolIndex in y)
    ensures var q := nodes[a].poolIndex;
            var gone := if q == INVALID then {} else {q};
            && RefsOk(DropRef(pool, nodes, a), x, y - gone)
            && forall z :: z in pool && (z !in gone || z in x) ==> z in DropRef(pool, nodes, a) && DropRef(pool, nodes, a)[z].vec == pool[z].vec
  {
    var q := nodes[a].poolIndex;
    if q != INVALID {
      PutRefOk(pool, x, y, q);
    }
  }

  lemma {:induction false} JoinRefs(st: Store, x: set<nat>, y: set<nat>, n: nat, a: nat, b: nat, p: nat, v: seq<nat>)
    requires RefsOk(st.pool, x, y) && n in st.nodes && st.nodes[n].sub0 == a && st.nodes[n].sub1 == b
    requires a in st.nodes && b in st.nodes && PoolAt(st, a) <= y && PoolAt(st, b) <= y && PoolAt(st, a) !! PoolAt(st, b)
    requires p != INVALID ==> p !in st.pool
    ensures var pool' := JoinStore(st, n, p, v).pool;
            && RefsOk(pool', x, y - PoolAt(st, a) - PoolAt(st, b) + (if p == INVALID then {} else {p}))
            && forall z :: z in st.pool && (z !in PoolAt(st, a) + PoolAt(st, b) || z in x) ==> z in pool' && pool'[z].vec == st.pool[z].vec
  {
    var come := if p == INVALID then {} else {p};
    var pool0 := if p == INVALID then st.pool else st.pool[p := Shared(v, 1)];
    if p != INVALID {
      NewRefOk(st.pool, x, y, p, v);
    } else {
      assert y + come == y;
    }
    DropRefOk(pool0, st.nodes, x, y + come, a);
    DropRefOk(DropRef(pool0, st.nodes, a), st.nodes, x, y + come - PoolAt(st, a), b);
    assert p != INVALID ==> p !in PoolAt(st, a) + PoolAt(st, b);
    assert y + come - PoolAt(st, a) - PoolAt(st, b) == y - PoolAt(st, a) - PoolAt(st, b) + come;
  }

  lemma {:induction false} JoinExchange(st: Store, u: Tree, n: nat, a: nat, b: nat, p: nat, v: seq<nat>, key: Key)
    requires Good(st, u, EMPTY_KEY) && n in NodesOf(u) && n in st.nodes && NodesOf(SubAt(u, n)) == {n, a, b} && SubAt(u, n).ni == n
    requires st.nodes[n].sub0 == a && st.nodes[n].sub1 == b
    requires PoolOf(st, SubAt(u, n)) == PoolAt(st, a) + PoolAt(st, b)
    requires var st' := JoinStore(st, n, p, v);
             && Good(st', Leaf(n), key) && PoolOf(st', Leaf(n)) == (if p == INVALID then {} else {p}) && INVALID !in st'.pool
             && (p != INVALID ==> p !in st.pool)
             && forall z :: z in st.pool && z !in PoolAt(st, a) + PoolAt(st, b) ==> z in st'.pool && st'.pool[z].vec == st.pool[z].vec
    ensures Exchange(st, JoinStore(st, n, p, v), u, SubAt(u, n), Leaf(n), key)
  {
    hide Good, PoolAt, VecOf, DropRef, PoolOf;
    GoodNodes(st, u, EMPTY_KEY);
  }

  lemma {:induction false} JoinOther(st: Store, t: Tree, u: Tree, c: Cost, d: Cost, n: nat, a: nat, b: nat, p: nat, v: seq<nat>)
    requires Inv(st, t, Busy(u), c, d) && n in st.nodes && st.nodes[n].sub0 == a && st.nodes[n].sub1 == b && {n, a, b} <= NodesOf(u)
    requires forall z :: z in st.pool && z in PoolOf(st, t) ==> z in JoinStore(st, n, p, v).pool && JoinStore(st, n, p, v).pool[z].vec == st.pool[z].vec
    requires INVALID !in JoinStore(st, n, p, v).pool
    ensures Agrees(st, JoinStore(st, n, p, v), NodesOf(t), PoolOf(st, t))
    ensures JoinStore(st, n, p, v).nodes.Keys == NodesOf(t) + (NodesOf(u) - {n, a, b} + {n}) || n in {a, b}
  {
    hide Good, PoolOf, DropRef, RefsOk, CostOf;
  }

  lemma {:induction false} JoinInv(st: Store, t: Tree, u: Tree, c: Cost, d: Cost, n: nat, a: nat, b: nat, p: nat)
    requires Inv(st, t, Busy(u), c, d) && JoinableAt(u, n, a, b) && n in st.nodes
    requires p != INVALID ==> p !in st.pool
    requires p == INVALID ==> VecOf(st, a) == [] && VecOf(st, b) == []
    ensures var v := VecOf(st, a) + Masked(VecOf(st, b), st.pairs, st.nodes[n].splitBit);
            Inv(JoinStore(st, n, p, v), t, Busy(Replace(u, n, Leaf(n))), c,
                d.Minus(CostOfSize(|VecOf(st, a)|).Plus(CostOfSize(|VecOf(st, b)|))).Plus(CostOfSize(|v|)))
  {
    hide Good, RefsOk, CostOf, PoolOf, Masked, Exact, GoodLeaf, VecOf, PoolAt, DropRef, JoinStore, Agrees, Exchange,
         NodesOf, SubAt, Replace, Cost.Plus, Cost.Minus, CostOfSize;
    JoinFacts(st, t, u, c, d, n, a, b);
    var v := VecOf(st, a) + Masked(VecOf(st, b), st.pairs, st.nodes[n].splitBit);
    var st' := JoinStore(st, n, p, v);
    var key := st.nodes[n].key;
    var come := if p == INVALID then {} else {p};
    JoinStoreGood(st, n, a, b, p, key);
    JoinNodes(st, u, n, a, b);
    JoinRefs(st, PoolOf(st, t), PoolOf(st, u), n, a, b, p, v);
    PoolInvalid(st'.pool, PoolOf(st, t), PoolOf(st, u) - PoolAt(st, a) - PoolAt(st, b) + come);
    JoinExchange(st, u, n, a, b, p, v, key);
    JoinOther(st, t, u, c, d, n, a, b, p, v);
    ReplaceGood(st, st', u, n, Leaf(n), EMPTY_KEY);
    LeafPool(st', n);
    assert PoolOf(st, u) - PoolAt(st, a) - PoolAt(st, b) + come == PoolOf(st', Replace(u, n, Leaf(n)));
    WorkChanged(st, st', t, u, Replace(u, n, Leaf(n)), c, d,
                d.Minus(CostOfSize(|VecOf(st, a)|).Plus(CostOfSize(|VecOf(st, b)|))).Plus(CostOfSize(|v|)));
  }

  lemma {:induction false} JoinNodes(st: Store, u: Tree, n: nat, a: nat, b: nat)
    requires n in NodesOf(u) && SubAt(u, n) == Split(n, Leaf(a), Leaf(b))
    requires Good(st, Split(n, Leaf(a), Leaf(b)), if n in st.nodes then st.nodes[n].key else EMPTY_KEY)
    ensures NodesOf(SubAt(u, n)) == {n, a, b} && a in st.nodes && b in st.nodes
  {
    assert NodesOf(Leaf(a)) == {a} && NodesOf(Leaf(b)) == {b};
    var key := st.nodes[n].key;
    assert Good(st, Leaf(a), Key0(key, st.nodes[n].splitBit)) && Good(st, Leaf(b), Key1(key, st.nodes[n].splitBit));
  }
}

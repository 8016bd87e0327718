// What one split, one join and one change of a leaf do to a right tree, to the
// reference counts and to the table.
module TernarySteps {
  import opened Basics
  import opened TernaryKeys
  import opened TernaryTree

  // ---- reference counts: a and b are the vectors named by the two trees

  ghost predicate RefsOk(pool: map<nat, Shared>, a: set<nat>, b: set<nat>) {
    && pool.Keys == a + b && INVALID !in pool
    && forall pi :: pi in pool ==> pool[pi].refs == (if pi in a then 1 else 0) + (if pi in b then 1 else 0)
  }

  // Dropping one reference frees a vector nobody else names.
  function PutRef(pool: map<nat, Shared>, pi: nat): map<nat, Shared>
    requires pi in pool && pool[pi].refs > 0
  {
    if pool[pi].refs == 1 then pool - {pi} else pool[pi := pool[pi].(refs := pool[pi].refs - 1)]
  }

  lemma PutRefOk(pool: map<nat, Shared>, a: set<nat>, b: set<nat>, pi: nat)
    requires RefsOk(pool, a, b) && pi in b
    ensures pi in pool && pool[pi].refs > 0
    ensures RefsOk(PutRef(pool, pi), a, b - {pi})
    ensures forall q :: q in pool && (q != pi || q in a) ==> q in PutRef(pool, pi) && PutRef(pool, pi)[q].vec == pool[q].vec
    ensures PutRef(pool, pi).Keys <= pool.Keys
  {
  }

  lemma NewRefOk(pool: map<nat, Shared>, a: set<nat>, b: set<nat>, pi: nat, v: seq<nat>)
    requires RefsOk(pool, a, b) && pi !in pool && pi != INVALID
    ensures RefsOk(pool[pi := Shared(v, 1)], a, b + {pi})
  {
  }

  lemma CloneRefOk(pool: map<nat, Shared>, a: set<nat>, b: set<nat>, pi: nat)
    requires RefsOk(pool, a, b) && pi in a && pi !in b
    ensures pi in pool && RefsOk(pool[pi := pool[pi].(refs := pool[pi].refs + 1)], a, b + {pi})
  {
  }

  lemma SwapRefs(pool: map<nat, Shared>, a: set<nat>, b: set<nat>)
    requires RefsOk(pool, a, b)
    ensures RefsOk(pool, b, a)
  {
  }

  lemma FreshIndex(s: set<nat>) returns (i: nat)
    ensures i !in s && i != INVALID
  {
    i := INVALID + 1;
    var rest := s;
    while i in s
      invariant i > INVALID && rest <= s && (forall j :: j in s && j >= i ==> j in rest)
      decreases rest
    {
      rest := rest - {i};
      i := i + 1;
    }
  }

  // ---- distributing a leaf over two

  function Side(vec: seq<nat>, pairs: map<nat, Key>, bit: nat, one: bool): seq<nat> {
    if vec == [] then []
    else
      var rest := Side(vec[..|vec| - 1], pairs, bit, one);
      var o := vec[|vec| - 1];
      if o in pairs && (if one then Branch(pairs[o], bit).1 else Branch(pairs[o], bit).0) then rest + [o] else rest
  }

  lemma DistinctParts(s: seq<nat>)
    requires Distinct(s) && s != []
    ensures Distinct(s[..|s| - 1]) && s[|s| - 1] !in s[..|s| - 1]
    ensures Distinct(s[1..]) && s[0] !in s[1..]
  {
  }

  lemma DistinctSnoc(s: seq<nat>, x: nat)
    requires Distinct(s) && x !in s
    ensures Distinct(s + [x]) && Distinct([x] + s)
  {
    assert forall i :: 0 <= i < |s| ==> s[i] in s;
  }

  ghost predicate Goes(pairs: map<nat, Key>, bit: nat, one: bool, o: nat) {
    o in pairs && if one then Branch(pairs[o], bit).1 else Branch(pairs[o], bit).0
  }

  lemma {:induction false} SideMembers(vec: seq<nat>, pairs: map<nat, Key>, bit: nat, one: bool)
    requires Distinct(vec)
    ensures Distinct(Side(vec, pairs, bit, one)) && |Side(vec, pairs, bit, one)| <= |vec|
    ensures forall o :: o in Side(vec, pairs, bit, one) <==> o in vec && Goes(pairs, bit, one, o)
  {
    if vec != [] {
      var n := |vec| - 1;
      assert vec == vec[..n] + [vec[n]];
      DistinctParts(vec);
      SideMembers(vec[..n], pairs, bit, one);
      DistinctSnoc(Side(vec[..n], pairs, bit, one), vec[n]);
    }
  }

  lemma SideExact(vec: seq<nat>, pairs: map<nat, Key>, key: Key, bit: nat, one: bool)
    requires Exact(vec, pairs, key) && Clean(key) && bit !in key.mask
    ensures Exact(Side(vec, pairs, bit, one), pairs, if one then Key1(key, bit) else Key0(key, bit))
    ensures Clean(Key0(key, bit)) && Clean(Key1(key, bit))
  {
    SideMembers(vec, pairs, bit, one);
    BranchIsCompatible(EMPTY_KEY, key, bit);
    forall o | o in pairs
      ensures Compatible(pairs[o], if one then Key1(key, bit) else Key0(key, bit)) <==> Compatible(pairs[o], key) && Goes(pairs, bit, one, o)
    {
      BranchIsCompatible(pairs[o], key, bit);
    }
  }

  // ---- joining two leaves

  // The part of the second leaf that the first does not have.
  function Masked(vec: seq<nat>, pairs: map<nat, Key>, bit: nat): seq<nat> {
    if vec == [] then []
    else
      var rest := Masked(vec[..|vec| - 1], pairs, bit);
      var o := vec[|vec| - 1];
      if o in pairs && bit in pairs[o].mask then rest + [o] else rest
  }

  lemma {:induction false} MaskedMembers(vec: seq<nat>, pairs: map<nat, Key>, bit: nat)
    requires Distinct(vec)
    ensures Distinct(Masked(vec, pairs, bit)) && |Masked(vec, pairs, bit)| <= |vec|
    ensures forall o :: o in Masked(vec, pairs, bit) <==> o in vec && o in pairs && bit in pairs[o].mask
  {
    if vec != [] {
      var n := |vec| - 1;
      assert vec == vec[..n] + [vec[n]];
      DistinctParts(vec);
      MaskedMembers(vec[..n], pairs, bit);
      DistinctSnoc(Masked(vec[..n], pairs, bit), vec[n]);
    }
  }

  lemma JoinExact(v0: seq<nat>, v1: seq<nat>, pairs: map<nat, Key>, key: Key, bit: nat)
    requires Exact(v0, pairs, Key0(key, bit)) && Exact(v1, pairs, Key1(key, bit)) && Clean(key) && bit !in key.mask
    ensures Exact(v0 + Masked(v1, pairs, bit), pairs, key)
  {
    MaskedMembers(v1, pairs, bit);
    var m := Masked(v1, pairs, bit);
    forall o | o in pairs
      ensures Compatible(pairs[o], Key0(key, bit)) <==> Compatible(pairs[o], key) && Branch(pairs[o], bit).0
      ensures Compatible(pairs[o], Key1(key, bit)) <==> Compatible(pairs[o], key) && Branch(pairs[o], bit).1
    {
      BranchIsCompatible(pairs[o], key, bit);
    }
    forall i, j | 0 <= i < j < |v0 + m|
      ensures (v0 + m)[i] != (v0 + m)[j]
    {
      if i < |v0| <= j {
        assert v0[i] in v0 && m[j - |v0|] in m;
      }
    }
  }

  // ---- changing the table by one pair

  // A pair that cannot be under this key does not matter to the leaf.
  lemma OtherKeyExact(vec: seq<nat>, pairs: map<nat, Key>, pairs': map<nat, Key>, key: Key, o: nat)
    requires Exact(vec, pairs, key)
    requires forall x :: x != o ==> (x in pairs' <==> x in pairs) && (x in pairs ==> pairs'[x] == pairs[x])
    requires (o in pairs ==> !Compatible(pairs[o], key)) && (o in pairs' ==> !Compatible(pairs'[o], key))
    ensures Exact(vec, pairs', key)
  {
  }

  lemma AddExact(vec: seq<nat>, pairs: map<nat, Key>, key: Key, o: nat, p: Key)
    requires Exact(vec, pairs, key) && o !in pairs && Compatible(p, key)
    ensures o !in vec && Exact(vec + [o], pairs[o := p], key)
  {
    var v := vec + [o];
    assert forall x :: x in v <==> x in vec || x == o;
  }

  function Drop(vec: seq<nat>, o: nat): seq<nat> {
    if vec == [] then [] else if vec[0] == o then vec[1..] else [vec[0]] + Drop(vec[1..], o)
  }

  lemma {:induction false} DropMembers(vec: seq<nat>, o: nat)
    requires Distinct(vec)
    ensures Distinct(Drop(vec, o)) && forall x :: x in Drop(vec, o) <==> x in vec && x != o
    ensures o in vec ==> |Drop(vec, o)| == |vec| - 1
  {
    if vec != [] {
      assert vec == [vec[0]] + vec[1..];
      DistinctParts(vec);
      DropMembers(vec[1..], o);
      DistinctSnoc(Drop(vec[1..], o), vec[0]);
    }
  }

  lemma DelExact(vec: seq<nat>, pairs: map<nat, Key>, key: Key, o: nat)
    requires Exact(vec, pairs, key) && o in pairs && Compatible(pairs[o], key)
    ensures o in vec && Exact(Drop(vec, o), pairs - {o}, key) && |Drop(vec, o)| == |vec| - 1
  {
    DropMembers(vec, o);
  }

  // ---- the store after a split, and after a join

  // Leaf n keeps its key and gets sub nodes a and b that hold v0 and v1.
  function SplitStore(st: Store, n: nat, bit: nat, a: nat, b: nat, p0: nat, p1: nat, v0: seq<nat>, v1: seq<nat>): Store
    requires n in st.nodes && st.nodes[n].poolIndex in st.pool && st.pool[st.nodes[n].poolIndex].refs > 0
    requires p0 !in st.pool && p1 !in st.pool
  {
    var nd := st.nodes[n];
    var k0, k1 := Key0(nd.key, bit), Key1(nd.key, bit);
    Store(st.nodes[a := Node(k0, 0, INVALID, INVALID, p0)][b := Node(k1, 0, INVALID, INVALID, p1)]
                  [n := Node(nd.key, bit, a, b, INVALID)],
          PutRef(st.pool[p0 := Shared(v0, 1)][p1 := Shared(v1, 1)], nd.poolIndex),
          st.pairs)
  }

  ghost predicate FreshFor(st: Store, a: nat, b: nat, p0: nat, p1: nat) {
    && a !in st.nodes && b !in st.nodes && a != b && a != INVALID && b != INVALID
    && p0 !in st.pool && p1 !in st.pool && p0 != p1 && p0 != INVALID && p1 != INVALID
  }

  lemma SplitStoreGood(st: Store, n: nat, bit: nat, a: nat, b: nat, p0: nat, p1: nat, key: Key)
    requires GoodLeaf(st, n, key) && bit !in key.mask && st.nodes[n].poolIndex in st.pool && st.pool[st.nodes[n].poolIndex].refs > 0
    requires FreshFor(st, a, b, p0, p1)
    ensures var v := VecOf(st, n);
            var v0, v1 := Side(v, st.pairs, bit, false), Side(v, st.pairs, bit, true);
            var st' := SplitStore(st, n, bit, a, b, p0, p1, v0, v1);
            && Good(st', Split(n, Leaf(a), Leaf(b)), key)
            && PoolOf(st', Split(n, Leaf(a), Leaf(b))) == {p0, p1}
            && CostOf(st', Split(n, Leaf(a), Leaf(b))) == CostOfSize(|v0|).Plus(CostOfSize(|v1|))
  {
    var v := VecOf(st, n);
    var v0, v1 := Side(v, st.pairs, bit, false), Side(v, st.pairs, bit, true);
    var st' := SplitStore(st, n, bit, a, b, p0, p1, v0, v1);
    SideExact(v, st.pairs, key, bit, false);
    SideExact(v, st.pairs, key, bit, true);
    assert VecOf(st', a) == v0 && VecOf(st', b) == v1;
    assert GoodLeaf(st', a, Key0(key, bit)) && GoodLeaf(st', b, Key1(key, bit));
  }

  // Node n, whose sub nodes a and b are leaves, becomes a leaf that holds v.
  function JoinStore(st: Store, n: nat, p: nat, v: seq<nat>): Store
    requires n in st.nodes
  {
    var nd := st.nodes[n];
    var a, b := nd.sub0, nd.sub1;
    var pool0 := if p == INVALID then st.pool else st.pool[p := Shared(v, 1)];
    var pool1 := DropRef(pool0, st.nodes, a);
    Store(st.nodes[n := Node(nd.key, 0, INVALID, INVALID, p)] - {a, b}, DropRef(pool1, st.nodes, b), st.pairs)
  }

  // The reference of leaf a is given up.
  function DropRef(pool: map<nat, Shared>, nodes: map<nat, Node>, a: nat): map<nat, Shared> {
    if a in nodes && nodes[a].poolIndex in pool && pool[nodes[a].poolIndex].refs > 0 then PutRef(pool, nodes[a].poolIndex) else pool
  }

  // The reference of leaf a, if any, can be given up.
  ghost predicate NodeRefs(pool: map<nat, Shared>, nodes: map<nat, Node>, a: nat) {
    a in nodes && (nodes[a].poolIndex != INVALID ==> nodes[a].poolIndex in pool && pool[nodes[a].poolIndex].refs > 0)
  }

  lemma JoinStoreGood(st: Store, n: nat, a: nat, b: nat, p: nat, key: Key)
    requires Good(st, Split(n, Leaf(a), Leaf(b)), key)
    requires p != INVALID ==> p !in st.pool
    requires p == INVALID ==> VecOf(st, a) == [] && VecOf(st, b) == []
    ensures var v := VecOf(st, a) + Masked(VecOf(st, b), st.pairs, st.nodes[n].splitBit);
            var st' := JoinStore(st, n, p, v);
            && Good(st', Leaf(n), key) && VecOf(st', n) == v
            && PoolOf(st', Leaf(n)) == (if p == INVALID then {} else {p})
            && CostOf(st', Leaf(n)) == CostOfSize(|v|)
  {
    var bit := st.nodes[n].splitBit;
    var v := VecOf(st, a) + Masked(VecOf(st, b), st.pairs, bit);
    var st' := JoinStore(st, n, p, v);
    assert Good(st, Leaf(a), Key0(key, bit)) && Good(st, Leaf(b), Key1(key, bit));
    JoinExact(VecOf(st, a), VecOf(st, b), st.pairs, key, bit);
    assert n !in {a, b};
    if p != INVALID {
      KeptByDrop(st.pool[p := Shared(v, 1)], st.nodes, a, p);
      KeptByDrop(DropRef(st.pool[p := Shared(v, 1)], st.nodes, a), st.nodes, b, p);
    }
    assert VecOf(st', n) == v;
    assert st'.nodes[n] == Node(key, 0, INVALID, INVALID, p);
  }

  lemma KeptByDrop(pool: map<nat, Shared>, nodes: map<nat, Node>, a: nat, p: nat)
    requires p in pool && (a in nodes ==> nodes[a].poolIndex != p)
    ensures p in DropRef(pool, nodes, a) && DropRef(pool, nodes, a)[p] == pool[p]
    ensures DropRef(pool, nodes, a).Keys <= pool.Keys
  {
  }
}

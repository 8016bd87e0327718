// Adding a pair to the table and deleting one: what it does to the leaves of a
// tree and to the counts, and what a lookup in the tree then finds.
module TernaryTables {
  import opened TernaryKeys
  import opened TernaryTree
  import opened TernarySteps
  import opened TernaryInvariant

  // ---- the table changes at offset o, whose pair is p

  ghost predicate Changed(before: map<nat, Key>, after: map<nat, Key>, o: nat, p: Key) {
    && (forall x :: x != o ==> (x in after <==> x in before) && (x in before ==> after[x] == before[x]))
    && (o in before ==> before[o] == p) && (o in after ==> after[o] == p)
  }

  function WithTable(st: Store, pairs: map<nat, Key>): Store {
    Store(st.nodes, st.pool, pairs)
  }

  lemma {:induction false} WithTableSame(st: Store, pairs: map<nat, Key>, t: Tree)
    ensures PoolOf(WithTable(st, pairs), t) == PoolOf(st, t) && CostOf(WithTable(st, pairs), t) == CostOf(st, t)
  {
    match t
    case Leaf(_) =>
    case Split(_, l, r) =>
      WithTableSame(st, pairs, l);
      WithTableSame(st, pairs, r);
  }

  lemma WiderIncompatible(p: Key, key: Key, bit: nat)
    requires !Compatible(p, key) && Clean(key) && bit !in key.mask
    ensures !Compatible(p, Key0(key, bit)) && !Compatible(p, Key1(key, bit))
  {
    BranchIsCompatible(p, key, bit);
  }

  // A subtree whose key excludes the pair is right for both tables.
  lemma {:induction false} Unaffected(st: Store, after: map<nat, Key>, t: Tree, key: Key, o: nat, p: Key)
    requires Good(st, t, key) && Changed(st.pairs, after, o, p) && !Compatible(p, key)
    ensures Good(WithTable(st, after), t, key)
  {
    match t
    case Leaf(n) =>
      OtherKeyExact(VecOf(st, n), st.pairs, after, key, o);
      assert VecOf(WithTable(st, after), n) == VecOf(st, n);
    case Split(n, l, r) =>
      var bit := st.nodes[n].splitBit;
      WiderIncompatible(p, key, bit);
      Unaffected(st, after, l, Key0(key, bit), o, p);
      Unaffected(st, after, r, Key1(key, bit), o, p);
      WithTableSame(st, after, l);
      WithTableSame(st, after, r);
  }

  // The vector of a leaf compatible with p after the change.
  function Edited(vec: seq<nat>, o: nat, isDel: bool): seq<nat> {
    if isDel then Drop(vec, o) else if o in vec then vec else vec + [o]
  }

  // What kinds of change there are; the last one is a second Add of a pair.
  ghost predicate ChangeKind(before: map<nat, Key>, after: map<nat, Key>, o: nat, p: Key, isDel: bool) {
    && Changed(before, after, o, p)
    && (isDel ==> o in before && after == before - {o})
    && (!isDel ==> after == before[o := p])
  }

  lemma EditedExact(vec: seq<nat>, before: map<nat, Key>, after: map<nat, Key>, key: Key, o: nat, p: Key, isDel: bool)
    requires Exact(vec, before, key) && ChangeKind(before, after, o, p, isDel) && Compatible(p, key)
    ensures Exact(Edited(vec, o, isDel), after, key)
    ensures isDel ==> o in vec && |Edited(vec, o, isDel)| == |vec| - 1
    ensures !isDel && o !in before ==> |Edited(vec, o, isDel)| == |vec| + 1
    ensures !isDel && o in before ==> Edited(vec, o, isDel) == vec && after == before
  {
    if isDel {
      DelExact(vec, before, key, o);
    } else if o !in before {
      AddExact(vec, before, key, o, p);
    } else {
      assert after == before;
    }
  }

  // Cost change of one leaf, as kept up to date by an Add or a Del.
  function AddDelOccupancy(c: Cost, l: nat, isDel: bool): Cost {
    if isDel then
      Cost(c.occupancy - 1, c.occupancy2 + 1 - 2 * l, if l == 1 then c.nonEmpty - 1 else c.nonEmpty)
    else
      Cost(c.occupancy + 1, c.occupancy2 + 1 + 2 * l, if l == 0 then c.nonEmpty + 1 else c.nonEmpty)
  }

  lemma OccupancyIsRecount(c: Cost, l: nat, isDel: bool)
    requires isDel ==> l > 0
    ensures AddDelOccupancy(c, l, isDel) == c.Minus(CostOfSize(l)).Plus(CostOfSize(if isDel then l - 1 else l + 1))
  {
    if isDel {
      assert (l - 1) * (l - 1) == l * l - 2 * l + 1;
    } else {
      assert (l + 1) * (l + 1) == l * l + 2 * l + 1;
    }
  }

  // ---- editing one leaf

  function LeafStore(st: Store, n: nat, pi: nat, vec: seq<nat>): Store
    requires n in st.nodes
  {
    Store(st.nodes[n := st.nodes[n].(poolIndex := pi)], st.pool[pi := Shared(vec, 1)], st.pairs)
  }

  // What an edit of the subtree t leaves as it was.
  ghost predicate EditFrame(st: Store, st': Store, t: Tree) {
    && st'.nodes.Keys == st.nodes.Keys && st'.pairs == st.pairs
    && (forall m :: m in st.nodes && m !in NodesOf(t) ==> st'.nodes[m] == st.nodes[m])
    && (forall q :: q in st.pool && q !in PoolOf(st, t) ==> q in st'.pool && st'.pool[q] == st.pool[q])
    && (forall q :: q in PoolOf(st', t) && q in st.pool ==> q in PoolOf(st, t))
    && st.pool.Keys <= st'.pool.Keys && INVALID !in st'.pool && PoolOf(st, t) <= PoolOf(st', t)
  }

  lemma {:induction false} LeafStoreGood(st: Store, n: nat, pi: nat, a: set<nat>, after: map<nat, Key>, key: Key, o: nat, p: Key, isDel: bool)
    requires GoodLeaf(st, n, key) && ChangeKind(st.pairs, after, o, p, isDel) && Compatible(p, key)
    requires RefsOk(st.pool, a, {}) && PoolAt(st, n) <= a && pi != INVALID
    requires if st.nodes[n].poolIndex == INVALID then pi !in st.pool else pi == st.nodes[n].poolIndex
    ensures var vec := VecOf(st, n);
            var st' := LeafStore(st, n, pi, Edited(vec, o, isDel));
            && Good(WithTable(st', after), Leaf(n), key) && EditFrame(st, st', Leaf(n))
            && PoolOf(st', Leaf(n)) == {pi} && RefsOk(st'.pool, a + {pi}, {})
            && CostOf(st', Leaf(n)) == CostOfSize(|Edited(vec, o, isDel)|)
  {
    var vec := VecOf(st, n);
    var st' := LeafStore(st, n, pi, Edited(vec, o, isDel));
    hide Exact, ChangeKind, Compatible, Edited;
    EditedExact(vec, st.pairs, after, key, o, p, isDel);
    assert VecOf(st', n) == Edited(vec, o, isDel) && VecOf(WithTable(st', after), n) == Edited(vec, o, isDel);
  }

  // ---- editing all the leaves of a subtree: left side, then right side

  lemma {:induction false} EditLeftKeepsRight(st: Store, st1: Store, n: nat, l: Tree, r: Tree, key: Key)
    requires Good(st, Split(n, l, r), key) && EditFrame(st, st1, l)
    ensures n in st.nodes
    ensures Good(st1, r, Key1(key, st.nodes[n].splitBit)) && PoolOf(st1, r) == PoolOf(st, r) && CostOf(st1, r) == CostOf(st, r)
  {
    GoodNodes(st, l, Key0(key, st.nodes[n].splitBit));
    GoodNodes(st, r, Key1(key, st.nodes[n].splitBit));
    GoodFrame(st, st1, r, Key1(key, st.nodes[n].splitBit));
  }

  lemma {:induction false} EditRightKeepsLeft(st: Store, st1: Store, st2: Store, after: map<nat, Key>, n: nat, l: Tree, r: Tree, key: Key)
    requires Good(st, Split(n, l, r), key) && EditFrame(st, st1, l) && EditFrame(st1, st2, r)
    requires Good(WithTable(st1, after), l, Key0(key, st.nodes[n].splitBit))
    ensures Good(WithTable(st2, after), l, Key0(key, st.nodes[n].splitBit))
    ensures PoolOf(st2, l) == PoolOf(st1, l) && CostOf(st2, l) == CostOf(st1, l)
    ensures PoolOf(st2, l) !! PoolOf(st2, r) && PoolOf(st1, l) <= st1.pool.Keys
  {
    var k0 := Key0(key, st.nodes[n].splitBit);
    EditLeftKeepsRight(st, st1, n, l, r, key);
    GoodNodes(st, l, k0);
    GoodNodes(st, r, Key1(key, st.nodes[n].splitBit));
    WithTableSame(st1, after, l);
    WithTableSame(st2, after, l);
    GoodNodes(WithTable(st1, after), l, k0);
    forall q | q in PoolOf(st1, l)
      ensures q !in PoolOf(st1, r)
    {
      assert q in st.pool ==> q in PoolOf(st, l);
    }
    GoodFrame(WithTable(st1, after), WithTable(st2, after), l, k0);
  }

  lemma {:induction false} EditBoth(st: Store, st1: Store, st2: Store, after: map<nat, Key>, n: nat, l: Tree, r: Tree, key: Key)
    requires Good(st, Split(n, l, r), key) && EditFrame(st, st1, l) && EditFrame(st1, st2, r)
    requires Good(WithTable(st1, after), l, Key0(key, st.nodes[n].splitBit))
    requires Good(WithTable(st2, after), r, Key1(key, st.nodes[n].splitBit))
    ensures Good(WithTable(st2, after), Split(n, l, r), key) && EditFrame(st, st2, Split(n, l, r))
    ensures PoolOf(st2, Split(n, l, r)) == PoolOf(st1, l) + PoolOf(st2, r)
    ensures CostOf(st2, Split(n, l, r)) == CostOf(st1, l).Plus(CostOf(st2, r))
    ensures CostOf(st, Split(n, l, r)) == CostOf(st, l).Plus(CostOf(st1, r))
  {
    EditLeftKeepsRight(st, st1, n, l, r, key);
    EditRightKeepsLeft(st, st1, st2, after, n, l, r, key);
    GoodNodes(st, l, Key0(key, st.nodes[n].splitBit));
    WithTableSame(st2, after, l);
    WithTableSame(st2, after, r);
    SplitParts(st, n, l, r, key);
    SplitParts(st2, n, l, r, key);
    assert st2.nodes[n] == st1.nodes[n] == st.nodes[n];
  }

  lemma {:induction false} EditNothing(st: Store, t: Tree, key: Key)
    requires Good(st, t, key) && INVALID !in st.pool
    ensures EditFrame(st, st, t)
  {
  }

  // The counts carried from c0 to c1 while a recount goes from k0 to k1.  Adding
  // a pair again leaves the leaves alone but counts it again.
  ghost predicate Carried(c0: Cost, c1: Cost, k0: Cost, k1: Cost, again: bool) {
    if again then c1.occupancy > c0.occupancy && k1 == k0 else c1 == c0.Minus(k0).Plus(k1)
  }

  lemma LeafCarried(c: Cost, vec: seq<nat>, before: map<nat, Key>, after: map<nat, Key>, key: Key, o: nat, p: Key, isDel: bool)
    requires Exact(vec, before, key) && ChangeKind(before, after, o, p, isDel) && Compatible(p, key)
    ensures Carried(c, AddDelOccupancy(c, |vec|, isDel), CostOfSize(|vec|), CostOfSize(|Edited(vec, o, isDel)|), !isDel && o in before)
  {
    EditedExact(vec, before, after, key, o, p, isDel);
    OccupancyIsRecount(c, |vec|, isDel);
  }

  // What an edit of the subtree t for the change of the table does.
  ghost predicate Edits(st: Store, st': Store, t: Tree, key: Key, after: map<nat, Key>, c: Cost, c': Cost, a: set<nat>, again: bool) {
    && Good(WithTable(st', after), t, key) && EditFrame(st, st', t)
    && RefsOk(st'.pool, a + PoolOf(st', t), {})
    && Carried(c, c', CostOf(st, t), CostOf(st', t), again)
  }

  // An edit finds a vector of its own to change, and the pair in it to delete.
  lemma {:induction false} LeafEditReady(st: Store, n: nat, key: Key, after: map<nat, Key>, o: nat, p: Key, isDel: bool, a: set<nat>)
    requires Good(st, Leaf(n), key) && ChangeKind(st.pairs, after, o, p, isDel) && Compatible(p, key)
    requires RefsOk(st.pool, a, {}) && PoolOf(st, Leaf(n)) <= a
    ensures n in st.nodes && INVALID !in st.pool && (isDel ==> st.nodes[n].poolIndex != INVALID && o in VecOf(st, n))
    ensures st.nodes[n].poolIndex != INVALID ==> st.nodes[n].poolIndex in st.pool && st.pool[st.nodes[n].poolIndex].refs == 1
  {
    EditedExact(VecOf(st, n), st.pairs, after, key, o, p, isDel);
  }

  lemma SamePair(pairs: map<nat, Key>, p: Key)
    requires Injective(pairs)
    ensures forall o, q :: o in pairs && q in pairs && pairs[o] == p && pairs[q] == p ==> o == q
  {
  }

  lemma {:induction false} LeafEdits(st: Store, n: nat, pi: nat, a: set<nat>, after: map<nat, Key>, key: Key, o: nat, p: Key, isDel: bool, c: Cost)
    requires Good(st, Leaf(n), key) && ChangeKind(st.pairs, after, o, p, isDel) && Compatible(p, key) && n in st.nodes
    requires RefsOk(st.pool, a, {}) && PoolOf(st, Leaf(n)) <= a && pi != INVALID
    requires if st.nodes[n].poolIndex == INVALID then pi !in st.pool else pi == st.nodes[n].poolIndex
    ensures Edits(st, LeafStore(st, n, pi, Edited(VecOf(st, n), o, isDel)), Leaf(n), key, after,
                  c, AddDelOccupancy(c, |VecOf(st, n)|, isDel), a, !isDel && o in st.pairs)
  {
    hide RefsOk, Compatible, EditFrame, ChangeKind, Carried, Edited, LeafStore, AddDelOccupancy;
    assert GoodLeaf(st, n, key) && PoolOf(st, Leaf(n)) == PoolAt(st, n);
    LeafStoreGood(st, n, pi, a, after, key, o, p, isDel);
    LeafCarried(c, VecOf(st, n), st.pairs, after, key, o, p, isDel);
    assert CostOf(st, Leaf(n)) == CostOfSize(|VecOf(st, n)|);
  }

  // One side of a split node: edited when the pair goes there, else as it was.
  ghost predicate SideEdits(st: Store, st': Store, t: Tree, key: Key, after: map<nat, Key>, c: Cost, c': Cost, a: set<nat>, again: bool, visited: bool) {
    if visited then Edits(st, st', t, key, after, c, c', a, again)
    else st' == st && c' == c && Good(WithTable(st, after), t, key) && EditFrame(st, st, t) && a + PoolOf(st, t) == a
         && RefsOk(st.pool, a, {})
  }

  lemma {:induction false} EditSkipped(st: Store, t: Tree, key: Key, after: map<nat, Key>, o: nat, p: Key, isDel: bool, a: set<nat>, c: Cost, again: bool)
    requires Good(st, t, key) && ChangeKind(st.pairs, after, o, p, isDel) && !Compatible(p, key)
    requires RefsOk(st.pool, a, {}) && PoolOf(st, t) <= a
    ensures SideEdits(st, st, t, key, after, c, c, a, again, false)
  {
    hide Good, PoolOf, Compatible, Changed;
    Unaffected(st, after, t, key, o, p);
    EditNothing(st, t, key);
  }

  lemma {:induction false} BranchSides(st: Store, t: Tree, key: Key, p: Key)
    requires Good(st, t, key) && t.Split? && t.ni in st.nodes && Compatible(p, key)
    ensures var bit := st.nodes[t.ni].splitBit;
            (Branch(p, bit).0 <==> Compatible(p, Key0(key, bit))) && (Branch(p, bit).1 <==> Compatible(p, Key1(key, bit)))
  {
    BranchIsCompatible(p, key, st.nodes[t.ni].splitBit);
  }

  lemma {:induction false} SideFacts(st: Store, st': Store, t: Tree, key: Key, after: map<nat, Key>, c: Cost, c': Cost, a: set<nat>, again: bool, visited: bool)
    requires SideEdits(st, st', t, key, after, c, c', a, again, visited)
    ensures Good(WithTable(st', after), t, key) && EditFrame(st, st', t) && RefsOk(st'.pool, a + PoolOf(st', t), {})
    ensures visited ==> Carried(c, c', CostOf(st, t), CostOf(st', t), again)
    ensures !visited ==> c' == c && CostOf(st', t) == CostOf(st, t)
  {
    hide Good, PoolOf, EditFrame, RefsOk, CostOf;
  }

  lemma {:induction false} EditSplit(st: Store, st1: Store, st2: Store, n: nat, l: Tree, r: Tree, key: Key, after: map<nat, Key>,
                                     c: Cost, c1: Cost, c2: Cost, a: set<nat>, again: bool, vl: bool, vr: bool)
    requires Good(st, Split(n, l, r), key) && n in st.nodes && (vl || vr)
    requires SideEdits(st, st1, l, Key0(key, st.nodes[n].splitBit), after, c, c1, a, again, vl)
    requires SideEdits(st1, st2, r, Key1(key, st.nodes[n].splitBit), after, c1, c2, a + PoolOf(st1, l), again, vr)
    ensures Edits(st, st2, Split(n, l, r), key, after, c, c2, a, again)
  {
    hide Good, PoolOf, EditFrame, RefsOk, CostOf, SideEdits;
    var k0, k1 := Key0(key, st.nodes[n].splitBit), Key1(key, st.nodes[n].splitBit);
    SideFacts(st, st1, l, k0, after, c, c1, a, again, vl);
    SideFacts(st1, st2, r, k1, after, c1, c2, a + PoolOf(st1, l), again, vr);
    EditBoth(st, st1, st2, after, n, l, r, key);
    EditLeftKeepsRight(st, st1, n, l, r, key);
    assert a + PoolOf(st1, l) + PoolOf(st2, r) == a + PoolOf(st2, Split(n, l, r));
  }

  // The table before and after as the source gets from one to the other.
  lemma TableStep(before: map<nat, Key>, after: map<nat, Key>, o: nat, p: Key, isDel: bool)
    requires Injective(before)
    requires if isDel then o in before && before[o] == p && after == before - {o}
             else after == before[o := p] && (o in before ==> before[o] == p) && (o !in before ==> p !in before.Values)
    ensures ChangeKind(before, after, o, p, isDel) && Injective(after) && Compatible(p, EMPTY_KEY)
    ensures !isDel && o in before ==> after == before
  {
    forall x, y | x in after && y in after && after[x] == after[y]
      ensures x == y
    {
      assert x in before ==> before[x] in before.Values;
      assert y in before ==> before[y] in before.Values;
    }
  }

  // After the edit both the tree and the references are right again, and the
  // counts are right unless the pair was there already.
  lemma {:induction false} EditedInv(st: Store, st': Store, t: Tree, after: map<nat, Key>, c: Cost, c': Cost, d: Cost, again: bool)
    requires Inv(st, t, Idle, c, d) && Injective(after)
    requires Edits(st, st', t, EMPTY_KEY, after, c, c', PoolOf(st, t), again)
    ensures Inv(WithTable(st', after), t, Idle, CostOf(WithTable(st', after), t), d)
    ensures c' == CostOf(WithTable(st', after), t) <==> !again
  {
    hide Good, PoolOf, CostOf, NodesOf, RefsOk, Injective;
    WithTableSame(st', after, t);
    assert PoolOf(st, t) + PoolOf(st', t) == PoolOf(st', t);
  }

  // Working copy and free leaves apart, a tree holds every pair a lookup needs:
  // descending by the bits of x ends at a leaf that lists all pairs matching x.
  function Descend(st: Store, t: Tree, x: set<nat>): nat
    requires forall n :: n in NodesOf(t) ==> n in st.nodes
  {
    match t
    case Leaf(n) => n
    case Split(n, l, r) => if st.nodes[n].splitBit in x then Descend(st, r, x) else Descend(st, l, x)
  }

  lemma {:induction false} DescentFindsAll(st: Store, t: Tree, key: Key, x: set<nat>)
    requires Good(st, t, key) && Matches(key, x) && forall n :: n in NodesOf(t) ==> n in st.nodes
    ensures var n := Descend(st, t, x);
            && n in NodesOf(t) && n in st.nodes && !st.nodes[n].IsSplit() && Matches(st.nodes[n].key, x)
            && forall o :: o in st.pairs && Matches(st.pairs[o], x) ==> o in VecOf(st, n)
  {
    match t
    case Leaf(n) =>
      forall o | o in st.pairs && Matches(st.pairs[o], x)
        ensures o in VecOf(st, n)
      {
        MatchBoth(st.pairs[o], key, x);
      }
    case Split(n, l, r) =>
      MatchSub(key, st.nodes[n].splitBit, x);
      if st.nodes[n].splitBit in x {
        DescentFindsAll(st, r, Key1(key, st.nodes[n].splitBit), x);
      } else {
        DescentFindsAll(st, l, Key0(key, st.nodes[n].splitBit), x);
      }
  }
}

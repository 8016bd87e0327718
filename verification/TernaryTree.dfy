// Search trees over ternary keys: the store of nodes and shared leaf vectors,
// the shape a tree has in it, and when a tree is right.
module TernaryTree {
  import opened Basics
  import opened TernaryKeys

  const INVALID: nat := 0xFFFF_FFFF

  datatype Node = Node(key: Key, splitBit: nat, sub0: nat, sub1: nat, poolIndex: nat) {
    predicate IsSplit() {
      sub0 != INVALID && sub1 != INVALID
    }
  }

  // A vector of pair offsets that leaves of different trees may share.
  datatype Shared = Shared(vec: seq<nat>, refs: nat)

  // nodes and pool hold what is allocated; pairs is the table by offset.
  datatype Store = Store(nodes: map<nat, Node>, pool: map<nat, Shared>, pairs: map<nat, Key>)

  datatype Tree = Leaf(ni: nat) | Split(ni: nat, left: Tree, right: Tree)

  function NodesOf(t: Tree): set<nat> {
    match t
    case Leaf(n) => {n}
    case Split(n, l, r) => {n} + NodesOf(l) + NodesOf(r)
  }

  function Leaves(t: Tree): nat {
    match t
    case Leaf(_) => 1
    case Split(_, l, r) => Leaves(l) + Leaves(r)
  }

  // Offsets of the pairs at node n.
  function VecOf(st: Store, n: nat): seq<nat> {
    if n in st.nodes && st.nodes[n].poolIndex in st.pool then st.pool[st.nodes[n].poolIndex].vec else []
  }

  function PoolAt(st: Store, n: nat): set<nat> {
    if n in st.nodes && st.nodes[n].poolIndex != INVALID then {st.nodes[n].poolIndex} else {}
  }

  // Indices of the vectors that the leaves of t name.
  function PoolOf(st: Store, t: Tree): set<nat> {
    match t
    case Leaf(n) => PoolAt(st, n)
    case Split(_, l, r) => PoolOf(st, l) + PoolOf(st, r)
  }

  // vec lists, once each, exactly the pairs of the table compatible with key.
  ghost predicate Exact(vec: seq<nat>, pairs: map<nat, Key>, key: Key) {
    && Distinct(vec)
    && (forall o :: o in vec ==> o in pairs && Compatible(pairs[o], key))
    && (forall o :: o in pairs && Compatible(pairs[o], key) ==> o in vec)
  }

  ghost predicate GoodLeaf(st: Store, n: nat, key: Key) {
    && n in st.nodes && n != INVALID && st.nodes[n].key == key && Clean(key) && !st.nodes[n].IsSplit()
    && st.nodes[n].sub0 == INVALID && st.nodes[n].sub1 == INVALID
    && (st.nodes[n].poolIndex != INVALID ==> st.nodes[n].poolIndex in st.pool)
    && INVALID !in st.pool
    && Exact(VecOf(st, n), st.pairs, key)
  }

  ghost predicate GoodSplit(st: Store, n: nat, l: nat, r: nat, key: Key) {
    && n in st.nodes && n != INVALID && st.nodes[n].key == key && Clean(key)
    && st.nodes[n].sub0 == l && st.nodes[n].sub1 == r && l != INVALID && r != INVALID
    && st.nodes[n].poolIndex == INVALID
    && st.nodes[n].splitBit !in key.mask
  }

  ghost predicate Good(st: Store, t: Tree, key: Key)
    decreases t
  {
    match t
    case Leaf(n) => GoodLeaf(st, n, key)
    case Split(n, l, r) =>
      && GoodSplit(st, n, l.ni, r.ni, key)
      && Good(st, l, Key0(key, st.nodes[n].splitBit)) && Good(st, r, Key1(key, st.nodes[n].splitBit))
      && n !in NodesOf(l) && n !in NodesOf(r) && NodesOf(l) !! NodesOf(r)
      && PoolOf(st, l) !! PoolOf(st, r)
  }

  // ---- cost: what the tree keeps up to date step by step

  datatype Cost = Cost(occupancy: int, occupancy2: int, nonEmpty: int) {
    function Plus(c: Cost): Cost {
      Cost(occupancy + c.occupancy, occupancy2 + c.occupancy2, nonEmpty + c.nonEmpty)
    }

    function Minus(c: Cost): Cost {
      Cost(occupancy - c.occupancy, occupancy2 - c.occupancy2, nonEmpty - c.nonEmpty)
    }
  }

  function CostOfSize(l: nat): Cost {
    Cost(l, l * l, if l > 0 then 1 else 0)
  }

  // The sums over all leafs.
  function CostOf(st: Store, t: Tree): Cost {
    match t
    case Leaf(n) => CostOfSize(|VecOf(st, n)|)
    case Split(_, l, r) => CostOf(st, l).Plus(CostOf(st, r))
  }

  // ---- facts about right trees

  lemma {:induction false} GoodNodes(st: Store, t: Tree, key: Key)
    requires Good(st, t, key)
    ensures t.ni in NodesOf(t) && t.ni in st.nodes && st.nodes[t.ni].key == key && Clean(key)
    ensures forall n :: n in NodesOf(t) ==> n in st.nodes && n != INVALID
    ensures forall pi :: pi in PoolOf(st, t) ==> pi in st.pool && pi != INVALID
  {
    match t
    case Leaf(n) =>
    case Split(n, l, r) =>
      GoodNodes(st, l, Key0(key, st.nodes[n].splitBit));
      GoodNodes(st, r, Key1(key, st.nodes[n].splitBit));
  }

  // st' holds the nodes ns and the vectors ps of st unchanged.
  ghost predicate Agrees(st: Store, st': Store, ns: set<nat>, ps: set<nat>) {
    && (forall n :: n in ns && n in st.nodes ==> n in st'.nodes && st'.nodes[n] == st.nodes[n])
    && (forall pi :: pi in ps && pi in st.pool ==> pi in st'.pool && st'.pool[pi].vec == st.pool[pi].vec)
    && st'.pairs == st.pairs && INVALID !in st'.pool
  }

  lemma {:induction false} GoodFrame(st: Store, st': Store, t: Tree, key: Key)
    requires Good(st, t, key) && Agrees(st, st', NodesOf(t), PoolOf(st, t))
    ensures Good(st', t, key) && PoolOf(st', t) == PoolOf(st, t) && CostOf(st', t) == CostOf(st, t)
  {
    match t
    case Leaf(n) =>
      assert st'.nodes[n] == st.nodes[n];
      assert VecOf(st', n) == VecOf(st, n);
    case Split(n, l, r) =>
      assert st'.nodes[n] == st.nodes[n];
      GoodFrame(st, st', l, Key0(key, st.nodes[n].splitBit));
      GoodFrame(st, st', r, Key1(key, st.nodes[n].splitBit));
  }

  // ---- exchanging the subtree at a node

  function Replace(t: Tree, n: nat, s: Tree): Tree {
    if t.ni == n then s
    else match t
      case Leaf(_) => t
      case Split(m, l, r) => Split(m, Replace(l, n, s), Replace(r, n, s))
  }

  // The subtree at node n.
  function SubAt(t: Tree, n: nat): Tree
    requires n in NodesOf(t)
  {
    if t.ni == n then t
    else match t
      case Split(_, l, r) => if n in NodesOf(l) then SubAt(l, n) else SubAt(r, n)
  }

  lemma {:induction false} ReplaceRoot(t: Tree, n: nat, s: Tree)
    requires s.ni == n
    ensures Replace(t, n, s).ni == t.ni
  {
  }

  lemma {:induction false} ReplaceMissing(t: Tree, n: nat, s: Tree)
    requires n !in NodesOf(t)
    ensures Replace(t, n, s) == t
  {
    match t
    case Leaf(_) =>
    case Split(_, l, r) =>
      ReplaceMissing(l, n, s);
      ReplaceMissing(r, n, s);
  }

  // Exchanging the subtree at one node of a right tree changes the number of leaves
  // by those of the subtree.
  lemma {:induction false} ReplaceLeaves(st: Store, t: Tree, n: nat, s: Tree, key: Key)
    requires Good(st, t, key) && n in NodesOf(t)
    ensures Leaves(Replace(t, n, s)) == Leaves(t) - Leaves(SubAt(t, n)) + Leaves(s)
  {
    if t.ni != n {
      match t
      case Split(m, l, r) =>
        if n in NodesOf(l) {
          ReplaceLeaves(st, l, n, s, Key0(key, st.nodes[m].splitBit));
          ReplaceMissing(r, n, s);
        } else {
          ReplaceLeaves(st, r, n, s, Key1(key, st.nodes[m].splitBit));
          ReplaceMissing(l, n, s);
        }
    }
  }

  lemma {:induction false} SubAtPart(t: Tree, n: nat)
    requires n in NodesOf(t)
    ensures NodesOf(SubAt(t, n)) <= NodesOf(t) && SubAt(t, n).ni == n
  {
    if t.ni != n {
      match t
      case Split(_, l, r) =>
        if n in NodesOf(l) {
          SubAtPart(l, n);
        } else {
          SubAtPart(r, n);
        }
    }
  }

  lemma {:induction false} SubAtPool(st: Store, t: Tree, n: nat)
    requires n in NodesOf(t)
    ensures PoolOf(st, SubAt(t, n)) <= PoolOf(st, t)
  {
    if t.ni != n {
      match t
      case Split(_, l, r) =>
        if n in NodesOf(l) {
          SubAtPool(st, l, n);
        } else {
          SubAtPool(st, r, n);
        }
    }
  }

  lemma {:induction false} SubAtGood(st: Store, t: Tree, n: nat, key: Key)
    requires Good(st, t, key) && n in NodesOf(t)
    ensures n in st.nodes && Good(st, SubAt(t, n), st.nodes[n].key)
  {
    if t.ni == n {
      GoodNodes(st, t, key);
    } else {
      match t
      case Split(m, l, r) =>
        if n in NodesOf(l) {
          SubAtGood(st, l, n, Key0(key, st.nodes[m].splitBit));
        } else {
          SubAtGood(st, r, n, Key1(key, st.nodes[m].splitBit));
        }
    }
  }

  // st' replaces the subtree u at node n by s: s is right, and uses nothing of
  // the rest of the tree t, which is unchanged.
  ghost predicate Exchange(st: Store, st': Store, t: Tree, u: Tree, s: Tree, key: Key) {
    && s.ni == u.ni && Good(st', s, key)
    && Agrees(st, st', NodesOf(t) - NodesOf(u), PoolOf(st, t) - PoolOf(st, u))
    && NodesOf(s) !! NodesOf(t) - NodesOf(u)
    && PoolOf(st', s) !! PoolOf(st, t) - PoolOf(st, u)
  }

  // What ReplaceGood says of the subtree exchanged below node n of t.
  ghost predicate Replaced(st: Store, st': Store, t: Tree, n: nat, s: Tree, key: Key)
    requires n in NodesOf(t)
  {
    var t' := Replace(t, n, s);
    && Good(st', t', key) && t'.ni == t.ni
    && NodesOf(t') == NodesOf(t) - NodesOf(SubAt(t, n)) + NodesOf(s)
    && PoolOf(st', t') == PoolOf(st, t) - PoolOf(st, SubAt(t, n)) + PoolOf(st', s)
    && CostOf(st', t') == CostOf(st, t).Minus(CostOf(st, SubAt(t, n))).Plus(CostOf(st', s))
  }

  lemma {:induction false} ReplaceGood(st: Store, st': Store, t: Tree, n: nat, s: Tree, key: Key)
    requires Good(st, t, key) && n in NodesOf(t) && n in st.nodes
    requires Exchange(st, st', t, SubAt(t, n), s, st.nodes[n].key)
    ensures Replaced(st, st', t, n, s, key)
  {
    if t.ni == n {
      GoodNodes(st, t, key);
    } else {
      match t
      case Split(m, l, r) =>
        var b := st.nodes[m].splitBit;
        if n in NodesOf(l) {
          ReplaceSide(st, st', t, l, r, n, s);
          ReplaceGood(st, st', l, n, s, Key0(key, b));
          ReplaceMissing(r, n, s);
          GoodFrame(st, st', r, Key1(key, b));
          ReplacedLeft(st, st', m, l, r, n, s, key);
        } else {
          ReplaceSide(st, st', t, r, l, n, s);
          ReplaceGood(st, st', r, n, s, Key1(key, b));
          ReplaceMissing(l, n, s);
          GoodFrame(st, st', l, Key0(key, b));
          ReplacedRight(st, st', m, l, r, n, s, key);
        }
    }
  }

  lemma {:induction false} SplitParts(st: Store, m: nat, l: Tree, r: Tree, key: Key)
    ensures PoolOf(st, Split(m, l, r)) == PoolOf(st, l) + PoolOf(st, r)
    ensures CostOf(st, Split(m, l, r)) == CostOf(st, l).Plus(CostOf(st, r))
    ensures Good(st, Split(m, l, r), key) ==>
              && m in st.nodes && m !in NodesOf(l) && m !in NodesOf(r) && NodesOf(l) !! NodesOf(r)
              && PoolOf(st, l) !! PoolOf(st, r)
  {
  }

  lemma {:induction false} SwapPart(a: set<nat>, x: set<nat>, y: set<nat>, u: set<nat>, s: set<nat>)
    requires u <= x && x !! y && a !! x && s !! y && s !! a
    ensures a + (x - u + s) + y == a + x + y - u + s && a + y + (x - u + s) == a + y + x - u + s
    ensures (x - u + s) !! y && a !! (x - u + s)
  {
  }

  lemma {:induction false} RootKept(st: Store, st': Store, m: nat, l: Tree, r: Tree, n: nat, s: Tree, u: Tree, key: Key)
    requires Good(st, Split(m, l, r), key) && n in st.nodes && m !in NodesOf(u)
    requires Exchange(st, st', Split(m, l, r), u, s, st.nodes[n].key)
    ensures m in st.nodes && m in st'.nodes && st'.nodes[m] == st.nodes[m] && m !in NodesOf(s)
  {
  }

  lemma {:induction false} SplitGood(st: Store, st': Store, m: nat, l: Tree, r: Tree, l': Tree, r': Tree, key: Key)
    requires Good(st, Split(m, l, r), key) && m in st'.nodes && st'.nodes[m] == st.nodes[m]
    requires l'.ni == l.ni && r'.ni == r.ni
    requires Good(st', l', Key0(key, st.nodes[m].splitBit)) && Good(st', r', Key1(key, st.nodes[m].splitBit))
    requires m !in NodesOf(l') && m !in NodesOf(r') && NodesOf(l') !! NodesOf(r') && PoolOf(st', l') !! PoolOf(st', r')
    ensures Good(st', Split(m, l', r'), key)
  {
  }

  // Going down to n on one side.
  lemma DownLeft(m: nat, l: Tree, r: Tree, n: nat, s: Tree)
    requires n in NodesOf(l) && n != m && Replace(r, n, s) == r
    ensures var t, t' := Split(m, l, r), Split(m, Replace(l, n, s), r);
            && Replace(t, n, s) == t' && SubAt(t, n) == SubAt(l, n) && n in NodesOf(t)
            && NodesOf(t) == {m} + NodesOf(l) + NodesOf(r) && NodesOf(t') == {m} + NodesOf(Replace(l, n, s)) + NodesOf(r)
  {
  }

  lemma DownRight(m: nat, l: Tree, r: Tree, n: nat, s: Tree)
    requires n in NodesOf(r) && n !in NodesOf(l) && n != m && Replace(l, n, s) == l
    ensures var t, t' := Split(m, l, r), Split(m, l, Replace(r, n, s));
            && Replace(t, n, s) == t' && SubAt(t, n) == SubAt(r, n) && n in NodesOf(t)
            && NodesOf(t) == {m} + NodesOf(l) + NodesOf(r) && NodesOf(t') == {m} + NodesOf(l) + NodesOf(Replace(r, n, s))
  {
  }

  lemma CostSwap(a: Cost, b: Cost, x: Cost, y: Cost)
    ensures a.Minus(x).Plus(y).Plus(b) == a.Plus(b).Minus(x).Plus(y)
    ensures b.Plus(a.Minus(x).Plus(y)) == b.Plus(a).Minus(x).Plus(y)
  {
  }

  lemma {:induction false} ReplacedLeft(st: Store, st': Store, m: nat, l: Tree, r: Tree, n: nat, s: Tree, key: Key)
    requires Good(st, Split(m, l, r), key) && n in NodesOf(l) && n !in NodesOf(r) && n != m && n in st.nodes
    requires Exchange(st, st', Split(m, l, r), SubAt(l, n), s, st.nodes[n].key)
    requires NodesOf(SubAt(l, n)) <= NodesOf(l) && PoolOf(st, SubAt(l, n)) <= PoolOf(st, l)
    requires NodesOf(s) !! NodesOf(r) && PoolOf(st', s) !! PoolOf(st, r)
    requires Replaced(st, st', l, n, s, Key0(key, st.nodes[m].splitBit)) && Replace(r, n, s) == r
    requires Good(st', r, Key1(key, st.nodes[m].splitBit)) && PoolOf(st', r) == PoolOf(st, r) && CostOf(st', r) == CostOf(st, r)
    ensures Replaced(st, st', Split(m, l, r), n, s, key)
  {
    hide Good, GoodSplit, PoolOf, CostOf, NodesOf, SubAt, Replace, Cost.Plus, Cost.Minus, Exchange;
    var l' := Replace(l, n, s);
    DownLeft(m, l, r, n, s);
    CostSwap(CostOf(st, l), CostOf(st, r), CostOf(st, SubAt(l, n)), CostOf(st', s));
    SplitParts(st, m, l, r, key);
    SplitParts(st', m, l', r, key);
    RootKept(st, st', m, l, r, n, s, SubAt(l, n), key);
    SwapPart({m}, NodesOf(l), NodesOf(r), NodesOf(SubAt(l, n)), NodesOf(s));
    SwapPart({}, PoolOf(st, l), PoolOf(st, r), PoolOf(st, SubAt(l, n)), PoolOf(st', s));
    SplitGood(st, st', m, l, r, l', r, key);
  }

  lemma {:induction false} ReplacedRight(st: Store, st': Store, m: nat, l: Tree, r: Tree, n: nat, s: Tree, key: Key)
    requires Good(st, Split(m, l, r), key) && n in NodesOf(r) && n !in NodesOf(l) && n != m && n in st.nodes
    requires Exchange(st, st', Split(m, l, r), SubAt(r, n), s, st.nodes[n].key)
    requires NodesOf(SubAt(r, n)) <= NodesOf(r) && PoolOf(st, SubAt(r, n)) <= PoolOf(st, r)
    requires NodesOf(s) !! NodesOf(l) && PoolOf(st', s) !! PoolOf(st, l)
    requires Replaced(st, st', r, n, s, Key1(key, st.nodes[m].splitBit)) && Replace(l, n, s) == l
    requires Good(st', l, Key0(key, st.nodes[m].splitBit)) && PoolOf(st', l) == PoolOf(st, l) && CostOf(st', l) == CostOf(st, l)
    ensures Replaced(st, st', Split(m, l, r), n, s, key)
  {
    hide Good, GoodSplit, PoolOf, CostOf, NodesOf, SubAt, Replace, Cost.Plus, Cost.Minus, Exchange;
    var r' := Replace(r, n, s);
    DownRight(m, l, r, n, s);
    CostSwap(CostOf(st, r), CostOf(st, l), CostOf(st, SubAt(r, n)), CostOf(st', s));
    SplitParts(st, m, l, r, key);
    SplitParts(st', m, l, r', key);
    RootKept(st, st', m, l, r, n, s, SubAt(r, n), key);
    SwapPart({m}, NodesOf(r), NodesOf(l), NodesOf(SubAt(r, n)), NodesOf(s));
    SwapPart({}, PoolOf(st, r), PoolOf(st, l), PoolOf(st, SubAt(r, n)), PoolOf(st', s));
    SplitGood(st, st', m, l, r, l, r', key);
  }

  // The exchange seen from the side x that holds node n; y is the other side.
  lemma {:induction false} ReplaceSide(st: Store, st': Store, t: Tree, x: Tree, y: Tree, n: nat, s: Tree)
    requires n in st.nodes && n in NodesOf(x) && NodesOf(x) !! NodesOf(y) && PoolOf(st, x) !! PoolOf(st, y)
    requires NodesOf(x) + NodesOf(y) <= NodesOf(t) && PoolOf(st, t) == PoolOf(st, x) + PoolOf(st, y)
    requires Exchange(st, st', t, SubAt(x, n), s, st.nodes[n].key)
    ensures Exchange(st, st', x, SubAt(x, n), s, st.nodes[n].key)
    ensures n !in NodesOf(y) && Agrees(st, st', NodesOf(y), PoolOf(st, y))
    ensures NodesOf(s) !! NodesOf(y) && PoolOf(st', s) !! PoolOf(st, y)
    ensures NodesOf(SubAt(x, n)) <= NodesOf(x) && PoolOf(st, SubAt(x, n)) <= PoolOf(st, x)
  {
    SubAtPart(x, n);
    SubAtPool(st, x, n);
  }
}

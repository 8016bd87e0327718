// Saving the shape of a tree and building it again: one flag per node in
// preorder, packed in words, and one byte per split.
module TernarySaves {
  import opened Basics
  import opened TernaryKeys
  import opened TernaryTree
  import opened TernarySteps
  import opened TernaryInvariant
  import opened TernaryCopies
  import opened TernaryCosts
  import opened TernaryMains

  datatype Shape = Tip | Fork(bit: nat, left: Shape, right: Shape)

  // ---- what is saved

  function Flags(s: Shape): seq<bool> {
    match s
    case Tip => [false]
    case Fork(_, l, r) => [true] + Flags(l) + Flags(r)
  }

  // Split bits are kept in a byte each.
  function Bytes(s: Shape): seq<nat> {
    match s
    case Tip => []
    case Fork(b, l, r) => [b % 256] + Bytes(l) + Bytes(r)
  }

  // ---- what a reader makes of it

  // Flag i of the bitmap; there are none past its end.
  predicate FlagAt(words: seq<set<nat>>, i: nat) {
    i / 64 < |words| && i % 64 in words[i / 64]
  }

  // The flags from i on and bytes[j..]: the shape, and where reading stops.
  // None when there are more splits than bytes.
  function Parse(words: seq<set<nat>>, bytes: seq<nat>, i: nat, j: nat): (r: Option<(Shape, nat, nat)>)
    ensures r.Some? ==> r.value.1 > i && r.value.2 >= j
    decreases 64 * |words| - i
  {
    if FlagAt(words, i) then
      if j < |bytes| then
        match Parse(words, bytes, i + 1, j + 1)
        case None => None
        case Some((l, i1, j1)) =>
          match Parse(words, bytes, i1, j1)
          case None => None
          case Some((r, i2, j2)) => Some((Fork(bytes[j], l, r), i2, j2))
      else None
    else Some((Tip, i + 1, j))
  }

  // Split bits as they come back.
  function Wrapped(s: Shape): Shape {
    match s
    case Tip => Tip
    case Fork(b, l, r) => Fork(b % 256, Wrapped(l), Wrapped(r))
  }

  predicate Narrow(s: Shape) {
    s.Fork? ==> s.bit < 256 && Narrow(s.left) && Narrow(s.right)
  }

  // The bitmap has f from flag i on.
  ghost predicate Holds(words: seq<set<nat>>, i: nat, f: seq<bool>) {
    forall k :: 0 <= k < |f| ==> (f[k] <==> FlagAt(words, i + k))
  }

  lemma HoldsParts(words: seq<set<nat>>, i: nat, f: seq<bool>, g: seq<bool>)
    requires Holds(words, i, f + g)
    ensures Holds(words, i, f) && Holds(words, i + |f|, g)
  {
    forall k | 0 <= k < |f|
      ensures f[k] <==> FlagAt(words, i + k)
    {
      assert (f + g)[k] == f[k];
    }
    forall k | 0 <= k < |g|
      ensures g[k] <==> FlagAt(words, i + |f| + k)
    {
      assert (f + g)[|f| + k] == g[k];
    }
  }

  ghost predicate HoldsBytes(bytes: seq<nat>, j: nat, b: seq<nat>) {
    j + |b| <= |bytes| && bytes[j..j + |b|] == b
  }

  lemma HoldsBytesParts(bytes: seq<nat>, j: nat, a: seq<nat>, b: seq<nat>)
    requires HoldsBytes(bytes, j, a + b)
    ensures HoldsBytes(bytes, j, a) && HoldsBytes(bytes, j + |a|, b)
  {
    var c := bytes[j..j + |a + b|];
    assert c[..|a|] == a && c[|a|..] == b;
    assert bytes[j..j + |a|] == c[..|a|] && bytes[j + |a|..j + |a| + |b|] == c[|a|..];
  }

  lemma HoldsFirst(words: seq<set<nat>>, bytes: seq<nat>, i: nat, j: nat, f: bool, b: nat)
    ensures Holds(words, i, [f]) ==> (f <==> FlagAt(words, i))
    ensures HoldsBytes(bytes, j, [b]) ==> j < |bytes| && bytes[j] == b
  {
    if Holds(words, i, [f]) {
      assert [f][0] <==> FlagAt(words, i + 0);
    }
    if HoldsBytes(bytes, j, [b]) {
      assert bytes[j..j + 1][0] == b;
    }
  }

  lemma ParseTip(words: seq<set<nat>>, bytes: seq<nat>, i: nat, j: nat)
    requires !FlagAt(words, i)
    ensures Parse(words, bytes, i, j) == Some((Tip, i + 1, j))
  {
  }

  lemma ParseShort(words: seq<set<nat>>, bytes: seq<nat>, i: nat, j: nat)
    requires FlagAt(words, i) && j >= |bytes|
    ensures Parse(words, bytes, i, j).None?
  {
  }

  lemma ParseLeft(words: seq<set<nat>>, bytes: seq<nat>, i: nat, j: nat)
    requires FlagAt(words, i) && j < |bytes|
    ensures Parse(words, bytes, i + 1, j + 1).None? ==> Parse(words, bytes, i, j).None?
    ensures Parse(words, bytes, i + 1, j + 1).Some? ==> Parse(words, bytes, i + 1, j + 1).value.1 > i + 1
  {
  }

  lemma ParseRight(words: seq<set<nat>>, bytes: seq<nat>, i: nat, j: nat)
    requires FlagAt(words, i) && j < |bytes| && Parse(words, bytes, i + 1, j + 1).Some?
    ensures var (l, i1, j1) := Parse(words, bytes, i + 1, j + 1).value;
            if Parse(words, bytes, i1, j1).None? then Parse(words, bytes, i, j).None?
            else var (r, i2, j2) := Parse(words, bytes, i1, j1).value; Parse(words, bytes, i, j) == Some((Fork(bytes[j], l, r), i2, j2))
  {
  }

  lemma ParseFork(words: seq<set<nat>>, bytes: seq<nat>, i: nat, j: nat, l: Shape, i1: nat, j1: nat, r: Shape, i2: nat, j2: nat)
    requires FlagAt(words, i) && j < |bytes|
    requires Parse(words, bytes, i + 1, j + 1) == Some((l, i1, j1)) && Parse(words, bytes, i1, j1) == Some((r, i2, j2))
    ensures Parse(words, bytes, i, j) == Some((Fork(bytes[j], l, r), i2, j2))
  {
  }

  // What was written of a split and of both sides.
  lemma ForkParts(words: seq<set<nat>>, bytes: seq<nat>, i: nat, j: nat, b: nat, l: Shape, r: Shape)
    requires Holds(words, i, Flags(Fork(b, l, r))) && HoldsBytes(bytes, j, Bytes(Fork(b, l, r)))
    ensures FlagAt(words, i) && j < |bytes| && bytes[j] == b % 256
    ensures Holds(words, i + 1, Flags(l)) && HoldsBytes(bytes, j + 1, Bytes(l))
    ensures Holds(words, i + 1 + |Flags(l)|, Flags(r)) && HoldsBytes(bytes, j + 1 + |Bytes(l)|, Bytes(r))
    ensures |Flags(Fork(b, l, r))| == 1 + |Flags(l)| + |Flags(r)| && |Bytes(Fork(b, l, r))| == 1 + |Bytes(l)| + |Bytes(r)|
    ensures Wrapped(Fork(b, l, r)) == Fork(b % 256, Wrapped(l), Wrapped(r))
  {
    hide Holds, HoldsBytes, FlagAt;
    HoldsParts(words, i, [true] + Flags(l), Flags(r));
    HoldsParts(words, i, [true], Flags(l));
    HoldsBytesParts(bytes, j, [b % 256] + Bytes(l), Bytes(r));
    HoldsBytesParts(bytes, j, [b % 256], Bytes(l));
    HoldsFirst(words, bytes, i, j, true, b % 256);
  }

  // Each reader takes exactly what the matching writer wrote, and gets the shape
  // with its split bits cut to bytes.
  lemma {:induction false} ParseSaved(words: seq<set<nat>>, bytes: seq<nat>, i: nat, j: nat, s: Shape)
    requires Holds(words, i, Flags(s)) && HoldsBytes(bytes, j, Bytes(s))
    ensures Parse(words, bytes, i, j) == Some((Wrapped(s), i + |Flags(s)|, j + |Bytes(s)|))
    decreases s
  {
    hide Holds, HoldsBytes, Parse, FlagAt;
    match s
    case Tip =>
      HoldsFirst(words, bytes, i, j, false, 0);
      ParseTip(words, bytes, i, j);
    case Fork(b, l, r) =>
      ForkParts(words, bytes, i, j, b, l, r);
      ParseSaved(words, bytes, i + 1, j + 1, l);
      ParseSaved(words, bytes, i + 1 + |Flags(l)|, j + 1 + |Bytes(l)|, r);
      ParseFork(words, bytes, i, j, Wrapped(l), i + 1 + |Flags(l)|, j + 1 + |Bytes(l)|,
                Wrapped(r), i + |Flags(s)|, j + |Bytes(s)|);
  }

  // The round trip is the identity exactly when every split bit fits a byte.
  lemma {:induction false} WrappedIsNarrow(s: Shape)
    ensures Wrapped(s) == s <==> Narrow(s)
  {
    match s
    case Tip =>
    case Fork(b, l, r) =>
      WrappedIsNarrow(l);
      WrappedIsNarrow(r);
  }

  lemma RoundTrip(s: Shape, words: seq<set<nat>>)
    requires Holds(words, 0, Flags(s))
    ensures Parse(words, Bytes(s), 0, 0).Some?
    ensures Parse(words, Bytes(s), 0, 0).value.0 == s <==> Narrow(s)
  {
    assert Bytes(s)[0..|Bytes(s)|] == Bytes(s);
    ParseSaved(words, Bytes(s), 0, 0, s);
    WrappedIsNarrow(s);
  }

  // ---- the shape of a tree in the store

  function ShapeOf(st: Store, t: Tree): Shape {
    match t
    case Leaf(_) => Tip
    case Split(n, l, r) => Fork(if n in st.nodes then st.nodes[n].splitBit else 0, ShapeOf(st, l), ShapeOf(st, r))
  }

  // No bit is split on twice on the way down.
  predicate SplitsOnce(s: Shape, mask: set<nat>) {
    match s
    case Tip => true
    case Fork(b, l, r) => b !in mask && SplitsOnce(l, mask + {b}) && SplitsOnce(r, mask + {b})
  }

  lemma {:induction false} GoodSplitsOnce(st: Store, t: Tree, key: Key)
    requires Good(st, t, key)
    ensures SplitsOnce(ShapeOf(st, t), key.mask)
  {
    match t
    case Leaf(_) =>
    case Split(n, l, r) =>
      GoodSplitsOnce(st, l, Key0(key, st.nodes[n].splitBit));
      GoodSplitsOnce(st, r, Key1(key, st.nodes[n].splitBit));
  }

  // Every node of u has the key that its way down from a node with this key gives.
  ghost predicate Keyed(st: Store, u: Tree, key: Key) {
    && u.ni in st.nodes && st.nodes[u.ni].key == key
    && (u.Split? ==>
          && Keyed(st, u.left, Key0(key, st.nodes[u.ni].splitBit))
          && Keyed(st, u.right, Key1(key, st.nodes[u.ni].splitBit)))
  }

  lemma {:induction false} GoodKeyed(st: Store, t: Tree, key: Key)
    requires Good(st, t, key)
    ensures Keyed(st, t, key)
  {
    match t
    case Leaf(_) =>
    case Split(n, l, r) =>
      GoodKeyed(st, l, Key0(key, st.nodes[n].splitBit));
      GoodKeyed(st, r, Key1(key, st.nodes[n].splitBit));
  }

  // Node for node the same keys and split bits.
  ghost predicate SameKeys(st: Store, t: Tree, st': Store, u: Tree) {
    && t.ni in st.nodes && u.ni in st'.nodes && st'.nodes[u.ni].key == st.nodes[t.ni].key
    && (t.Split? <==> u.Split?)
    && (t.Split? ==>
          && st'.nodes[u.ni].splitBit == st.nodes[t.ni].splitBit
          && SameKeys(st, t.left, st', u.left) && SameKeys(st, t.right, st', u.right))
  }

  lemma {:induction false} ShapeGivesKeys(st: Store, t: Tree, st': Store, u: Tree, key: Key)
    requires Keyed(st, t, key) && Keyed(st', u, key) && ShapeOf(st, t) == ShapeOf(st', u)
    ensures SameKeys(st, t, st', u)
  {
    if t.Split? {
      ShapeGivesKeys(st, t.left, st', u.left, Key0(key, st.nodes[t.ni].splitBit));
      ShapeGivesKeys(st, t.right, st', u.right, Key1(key, st.nodes[t.ni].splitBit));
    }
  }

  lemma {:induction false} KeysGiveShape(st: Store, t: Tree, st': Store, u: Tree)
    requires SameKeys(st, t, st', u)
    ensures ShapeOf(st, t) == ShapeOf(st', u)
  {
    if t.Split? {
      KeysGiveShape(st, t.left, st', u.left);
      KeysGiveShape(st, t.right, st', u.right);
    }
  }

  // ---- the two walks

  // What is written to a file, and the cursors of the walks.
  class TreeSave {
    var isSplit: seq<set<nat>>
    var splitBits: seq<nat>
    var nNodes: nat
    var nSplit: nat

    constructor ()
      ensures isSplit == [] && splitBits == [] && nNodes == 0 && nSplit == 0
    {
      isSplit, splitBits, nNodes, nSplit := [], [], 0, 0;
    }

    method SetFlag(i: nat)
      modifies this`isSplit
      ensures forall k: nat :: FlagAt(isSplit, k) <==> FlagAt(old(isSplit), k) || k == i
    {
      var i0, i1 := i / 64, i % 64;
      while |isSplit| <= i0
        invariant |old(isSplit)| <= |isSplit| && isSplit[..|old(isSplit)|] == old(isSplit)
        invariant forall w :: |old(isSplit)| <= w < |isSplit| ==> isSplit[w] == {}
      {
        isSplit := isSplit + [{}];
      }
      assert forall w :: 0 <= w < |old(isSplit)| ==> isSplit[w] == isSplit[..|old(isSplit)|][w];
      isSplit := isSplit[i0 := isSplit[i0] + {i1}];
    }
  }

  // words' has all flags of words below n, those of f from n on, and no more.
  ghost predicate Appended(words: seq<set<nat>>, words': seq<set<nat>>, n: nat, f: seq<bool>) {
    forall k: nat :: FlagAt(words', k) <==> if k < n then FlagAt(words, k) else k < n + |f| && f[k - n]
  }

  // n splits, each the left side of the one before; split bits count down to 0.
  function LeftChain(n: nat): Shape {
    if n == 0 then Tip else Fork(n - 1, LeftChain(n - 1), Tip)
  }

  // n times true, then n + 1 times false; the numbers below n, downwards.
  function ChainFlags(n: nat): seq<bool> {
    seq(2 * n + 1, k => k < n)
  }

  function ChainBytes(n: nat): seq<nat> {
    seq(n, k requires 0 <= k < n => (n - 1 - k) % 256)
  }

  lemma {:induction false} LeftChainFlags(n: nat)
    ensures Flags(LeftChain(n)) == ChainFlags(n) && Bytes(LeftChain(n)) == ChainBytes(n)
  {
    if n > 0 {
      hide ChainFlags, ChainBytes;
      LeftChainFlags(n - 1);
      ChainMore(n - 1);
      assert Flags(Tip) == [false] && Bytes(Tip) == [];
    } else {
      assert ChainFlags(0) == [false] && ChainBytes(0) == [];
    }
  }

  lemma ChainMore(n: nat)
    ensures ChainFlags(n + 1) == [true] + ChainFlags(n) + [false]
    ensures ChainBytes(n + 1) == [n % 256] + ChainBytes(n) + []
  {
  }

  // The layout by words and bits: left sides come first, and a word holds 64 flags,
  // the first in bit 0.
  lemma LeftChainSaved(n: nat, words: seq<set<nat>>)
    requires Appended([], words, 0, Flags(LeftChain(n)))
    ensures forall w: nat, b: nat :: b < 64 && w < |words| ==> (b in words[w] <==> 64 * w + b < n)
    ensures 64 * |words| >= n
    ensures Bytes(LeftChain(n)) == ChainBytes(n)
  {
    LeftChainFlags(n);
    hide LeftChain, Flags, Bytes, ChainBytes;
    forall w: nat, b: nat | b < 64 && w < |words|
      ensures b in words[w] <==> 64 * w + b < n
    {
      FlagPlace(words, w, b);
    }
    if n > 0 {
      assert FlagAt(words, n - 1);
    }
  }

  lemma FlagPlace(words: seq<set<nat>>, w: nat, b: nat)
    requires w < |words| && b < 64
    ensures FlagAt(words, 64 * w + b) <==> b in words[w]
  {
    assert (64 * w + b) / 64 == w && (64 * w + b) % 64 == b;
  }

  // No flag from n on.
  ghost predicate ClearFrom(words: seq<set<nat>>, n: nat) {
    forall k: nat :: k >= n ==> !FlagAt(words, k)
  }

  lemma AppendedOne(words: seq<set<nat>>, words': seq<set<nat>>, n: nat)
    requires ClearFrom(words, n)
    ensures Appended(words, words, n, [false])
    ensures (forall k: nat :: FlagAt(words', k) <==> FlagAt(words, k) || k == n) ==> Appended(words, words', n, [true])
  {
  }

  lemma AppendedTwice(w0: seq<set<nat>>, w1: seq<set<nat>>, w2: seq<set<nat>>, n: nat, f: seq<bool>, g: seq<bool>)
    requires Appended(w0, w1, n, f) && Appended(w1, w2, n + |f|, g)
    ensures Appended(w0, w2, n, f + g)
  {
  }

  lemma AppendedFacts(words: seq<set<nat>>, words': seq<set<nat>>, n: nat, f: seq<bool>)
    requires Appended(words, words', n, f)
    ensures ClearFrom(words', n + |f|) && Holds(words', n, f)
  {
  }

  // The tree t below node ni; a freed node has no sub nodes.
  ghost predicate Walks(st: Store, t: Tree, key: Key, ni: nat) {
    t.ni == ni && (Good(st, t, key) || (t.Leaf? && ni !in st.nodes))
  }

  lemma WalkParts(st: Store, t: Tree, key: Key, ni: nat)
    requires Walks(st, t, key, ni)
    ensures t.ni == ni && (ni in st.nodes && st.nodes[ni].IsSplit() <==> t.Split?)
    ensures t.Split? ==> Walks(st, t.left, Key0(key, st.nodes[ni].splitBit), st.nodes[ni].sub0)
                         && Walks(st, t.right, Key1(key, st.nodes[ni].splitBit), st.nodes[ni].sub1)
    ensures if t.Leaf? then Flags(ShapeOf(st, t)) == [false] && Bytes(ShapeOf(st, t)) == []
            else
              && Flags(ShapeOf(st, t)) == [true] + Flags(ShapeOf(st, t.left)) + Flags(ShapeOf(st, t.right))
              && Bytes(ShapeOf(st, t)) == [st.nodes[ni].splitBit % 256] + Bytes(ShapeOf(st, t.left)) + Bytes(ShapeOf(st, t.right))
  {
    hide Good;
    if Good(st, t, key) {
      GoodParts(st, t, key);
    }
  }

  method SaveHelper(m: Main, s: TreeSave, ni: nat, ghost t: Tree, ghost key: Key)
    requires Walks(m.St(), t, key, ni) && ClearFrom(s.isSplit, s.nNodes)
    modifies s
    ensures s.nSplit == old(s.nSplit)
    ensures s.nNodes == old(s.nNodes) + |Flags(ShapeOf(m.St(), t))|
    ensures Appended(old(s.isSplit), s.isSplit, old(s.nNodes), Flags(ShapeOf(m.St(), t)))
    ensures s.splitBits == old(s.splitBits) + Bytes(ShapeOf(m.St(), t))
    decreases t
  {
    hide Walks, Appended, ClearFrom, FlagAt, ShapeOf, Flags, Bytes;
    WalkParts(m.St(), t, key, ni);
    ghost var w0, n := s.isSplit, s.nNodes;
    if ni in m.nodes && m.nodes[ni].IsSplit() {
      var nd := m.nodes[ni];
      ghost var l, r := Flags(ShapeOf(m.St(), t.left)), Flags(ShapeOf(m.St(), t.right));
      s.SetFlag(s.nNodes);
      s.splitBits := s.splitBits + [nd.splitBit % 256];
      s.nNodes := s.nNodes + 1;
      ghost var w1 := s.isSplit;
      AppendedOne(w0, w1, n);
      AppendedFacts(w0, w1, n, [true]);
      SaveHelper(m, s, nd.sub0, t.left, Key0(key, nd.splitBit));
      ghost var w2 := s.isSplit;
      AppendedFacts(w1, w2, n + 1, l);
      SaveHelper(m, s, nd.sub1, t.right, Key1(key, nd.splitBit));
      AppendedTwice(w0, w1, w2, n, [true], l);
      AppendedTwice(w0, w2, s.isSplit, n, [true] + l, r);
    } else {
      s.nNodes := s.nNodes + 1;
      AppendedOne(w0, w0, n);
    }
  }

  // ---- building the tree again

  ghost predicate Bare(st: Store, u: Tree) {
    u.ni in st.nodes && st.nodes[u.ni].poolIndex == INVALID && (u.Split? ==> Bare(st, u.left) && Bare(st, u.right))
  }

  // The tree u with keys from key on, of this shape, and no pairs yet.
  ghost predicate Rebuilt(st: Store, u: Tree, key: Key, s: Shape) {
    LinkedIn(st, u) && Keyed(st, u, key) && Bare(st, u) && ShapeOf(st, u) == s
  }

  lemma {:induction false} RebuiltFrame(st: Store, st': Store, u: Tree, key: Key, s: Shape)
    requires Rebuilt(st, u, key, s) && SameNodes(st, st', NodesOf(u))
    ensures Rebuilt(st', u, key, s)
  {
    match u
    case Leaf(_) =>
    case Split(n, l, r) =>
      assert st'.nodes[n] == st.nodes[n];
      RebuiltFrame(st, st', l, Key0(key, st.nodes[n].splitBit), s.left);
      RebuiltFrame(st, st', r, Key1(key, st.nodes[n].splitBit), s.right);
  }

  lemma {:induction false} RebuiltTip(st: Store, n: nat, key: Key)
    requires n in st.nodes && n != INVALID && st.nodes[n].key == key && st.nodes[n].poolIndex == INVALID
    requires st.nodes[n].sub0 == INVALID && st.nodes[n].sub1 == INVALID
    ensures Rebuilt(st, Leaf(n), key, Tip)
  {
  }

  lemma {:induction false} RebuiltNode(st: Store, n: nat, l: Tree, r: Tree, key: Key, sl: Shape, sr: Shape)
    requires n in st.nodes && n != INVALID && st.nodes[n].key == key && st.nodes[n].poolIndex == INVALID
    requires st.nodes[n].sub0 == l.ni && st.nodes[n].sub1 == r.ni
    requires n !in NodesOf(l) && n !in NodesOf(r) && NodesOf(l) !! NodesOf(r)
    requires Rebuilt(st, l, Key0(key, st.nodes[n].splitBit), sl) && Rebuilt(st, r, Key1(key, st.nodes[n].splitBit), sr)
    ensures Rebuilt(st, Split(n, l, r), key, Fork(st.nodes[n].splitBit, sl, sr))
  {
  }

  // With no pairs in the table, a rebuilt tree is right.
  lemma {:induction false} RebuiltGood(st: Store, u: Tree, key: Key, s: Shape)
    requires Rebuilt(st, u, key, s) && SplitsOnce(s, key.mask) && Clean(key)
    requires st.pairs == map[] && INVALID !in st.pool
    ensures Good(st, u, key) && PoolOf(st, u) == {} && CostOf(st, u) == Cost(0, 0, 0)
  {
    match u
    case Leaf(n) =>
      assert VecOf(st, n) == [];
    case Split(n, l, r) =>
      RebuiltGood(st, l, Key0(key, st.nodes[n].splitBit), s.left);
      RebuiltGood(st, r, Key1(key, st.nodes[n].splitBit), s.right);
  }

  // Sub nodes below the leaf ni as long as the flags say so; the source runs off
  // the end of the bytes when there are too few.
  method RestoreHelper(m: Main, s: TreeSave, ni: nat, ghost key: Key) returns (ok: bool, ghost u: Tree)
    requires ni in m.nodes && ni != INVALID && m.nodes[ni] == Node(key, m.nodes[ni].splitBit, INVALID, INVALID, INVALID)
    modifies m`nodes, s`nNodes, s`nSplit
    ensures var r := Parse(s.isSplit, s.splitBits, old(s.nNodes), old(s.nSplit));
            && (ok <==> r.Some?)
            && (ok ==> Rebuilt(m.St(), u, key, r.value.0) && s.nNodes == r.value.1 && s.nSplit == r.value.2)
    ensures ok ==> u.ni == ni && (NodesOf(u) - {ni}) !! old(m.nodes).Keys && m.nodes.Keys == old(m.nodes).Keys + NodesOf(u)
    ensures ok ==> SameNodes(old(m.St()), m.St(), old(m.nodes).Keys - {ni}) && ni in NodesOf(u)
    decreases 64 * |s.isSplit| - s.nNodes, 1
  {
    hide Rebuilt, Parse, SameNodes, FlagAt;
    ghost var i, j := s.nNodes, s.nSplit;
    u := Leaf(ni);
    if FlagAt(s.isSplit, s.nNodes) {
      if s.nSplit >= |s.splitBits| {
        ParseShort(s.isSplit, s.splitBits, i, j);
        return false, u;
      }
      ghost var ul, ur, l, r;
      ok, ul, ur, l, r := RestoreSubs(m, s, ni, key);
      if ok {
        u := Split(ni, ul, ur);
        RebuiltNode(m.St(), ni, ul, ur, key, l, r);
      }
    } else {
      s.nNodes := s.nNodes + 1;
      ParseTip(s.isSplit, s.splitBits, i, j);
      RebuiltTip(m.St(), ni, key);
      SameNodesSelf(m.St(), m.nodes.Keys - {ni});
      ok := true;
    }
  }

  // The sub nodes of ni and all below them.
  method RestoreSubs(m: Main, s: TreeSave, ni: nat, ghost key: Key)
    returns (ok: bool, ghost ul: Tree, ghost ur: Tree, ghost l: Shape, ghost r: Shape)
    requires ni in m.nodes && ni != INVALID && m.nodes[ni] == Node(key, m.nodes[ni].splitBit, INVALID, INVALID, INVALID)
    requires FlagAt(s.isSplit, s.nNodes) && s.nSplit < |s.splitBits|
    modifies m`nodes, s`nNodes, s`nSplit
    ensures var p := Parse(s.isSplit, s.splitBits, old(s.nNodes), old(s.nSplit));
            && (ok <==> p.Some?)
            && (ok ==> p == Some((Fork(s.splitBits[old(s.nSplit)], l, r), s.nNodes, s.nSplit)))
    ensures ok ==> var bit := s.splitBits[old(s.nSplit)];
                   && Rebuilt(m.St(), ul, Key0(key, bit), l) && Rebuilt(m.St(), ur, Key1(key, bit), r)
                   && ni in m.nodes && m.nodes[ni] == Node(key, bit, ul.ni, ur.ni, INVALID)
    ensures ok ==> NodesOf(ul) !! old(m.nodes).Keys && NodesOf(ur) !! old(m.nodes).Keys && NodesOf(ul) !! NodesOf(ur)
    ensures ok ==> m.nodes.Keys == old(m.nodes).Keys + NodesOf(ul) + NodesOf(ur)
    ensures ok ==> SameNodes(old(m.St()), m.St(), old(m.nodes).Keys - {ni})
    decreases 64 * |s.isSplit| - s.nNodes, 0
  {
    hide Rebuilt, Parse, SameNodes;
    ghost var i, j, st0 := s.nNodes, s.nSplit, m.St();
    var bit := s.splitBits[s.nSplit];
    s.nSplit := s.nSplit + 1;
    s.nNodes := s.nNodes + 1;
    ul, ur, l, r := Leaf(ni), Leaf(ni), Tip, Tip;
    var n0, n1 := m.AllocSubs(ni, bit);
    ghost var st1 := m.St();
    ok, ul := RestoreHelper(m, s, n0, Key0(key, bit));
    ghost var st2 := m.St();
    ParseLeft(s.isSplit, s.splitBits, i, j);
    if !ok {
      return;
    }
    l := Parse(s.isSplit, s.splitBits, i + 1, j + 1).value.0;
    SameNodesAt(st1, st2, st1.nodes.Keys - {n0}, n1);
    ok, ur := RestoreHelper(m, s, n1, Key1(key, bit));
    ParseRight(s.isSplit, s.splitBits, i, j);
    if ok {
      r := Parse(s.isSplit, s.splitBits, i, j).value.0.right;
      RestoredSubs(st0, st1, st2, m.St(), ni, n0, n1, ul, ur);
      RebuiltFrame(st2, m.St(), ul, Key0(key, bit), l);
    }
  }

  lemma SameNodesSelf(st: Store, ns: set<nat>)
    ensures SameNodes(st, st, ns)
  {
  }

  lemma SameNodesAt(st: Store, st': Store, ns: set<nat>, n: nat)
    requires SameNodes(st, st', ns) && n in ns && n in st.nodes
    ensures n in st'.nodes && st'.nodes[n] == st.nodes[n]
  {
  }

  // What two restored sides leave alone: each other, the node above and all others.
  lemma RestoredSubs(st0: Store, st1: Store, st2: Store, st3: Store, ni: nat, n0: nat, n1: nat, ul: Tree, ur: Tree)
    requires ni in st0.nodes && ni in st1.nodes && n0 !in st0.nodes && n1 !in st0.nodes && n0 != n1
    requires st1.nodes.Keys == st0.nodes.Keys + {n0, n1} && forall x :: x in st0.nodes && x != ni ==> st1.nodes[x] == st0.nodes[x]
    requires (NodesOf(ul) - {n0}) !! st1.nodes.Keys && st2.nodes.Keys == st1.nodes.Keys + NodesOf(ul) && n0 in NodesOf(ul)
    requires (NodesOf(ur) - {n1}) !! st2.nodes.Keys && st3.nodes.Keys == st2.nodes.Keys + NodesOf(ur) && n1 in NodesOf(ur)
    requires SameNodes(st1, st2, st1.nodes.Keys - {n0}) && SameNodes(st2, st3, st2.nodes.Keys - {n1})
    ensures NodesOf(ul) !! st0.nodes.Keys && NodesOf(ur) !! st0.nodes.Keys && NodesOf(ul) !! NodesOf(ur)
    ensures st3.nodes.Keys == st0.nodes.Keys + NodesOf(ul) + NodesOf(ur)
    ensures SameNodes(st0, st3, st0.nodes.Keys - {ni}) && SameNodes(st2, st3, NodesOf(ul))
    ensures ni in st3.nodes && st3.nodes[ni] == st1.nodes[ni]
  {
    hide NodesOf, SameNodes;
    var a, b, k := NodesOf(ul), NodesOf(ur), st0.nodes.Keys;
    SubsApart(k, a, b, n0, n1);
    SameLater(st1, st2, k, st1.nodes.Keys - {n0});
    SameLater(st2, st3, k, st2.nodes.Keys - {n1});
    SameLater(st2, st3, a, st2.nodes.Keys - {n1});
    SameThrough(st0, st1, st2, st3, ni);
  }

  lemma SubsApart(k: set<nat>, a: set<nat>, b: set<nat>, n0: nat, n1: nat)
    requires n0 !in k && n1 !in k && n0 != n1 && n0 in a && n1 in b
    requires (a - {n0}) !! k + {n0, n1} && (b - {n1}) !! k + {n0, n1} + a
    ensures a !! k && b !! k && a !! b && k + {n0, n1} + a + b == k + a + b
    ensures k <= k + {n0, n1} - {n0} && k <= k + {n0, n1} + a - {n1} && a <= k + {n0, n1} + a - {n1}
  {
  }

  lemma SameLater(st: Store, st': Store, s: set<nat>, t: set<nat>)
    requires SameNodes(st, st', t) && s <= t
    ensures SameNodes(st, st', s)
  {
  }

  lemma SameThrough(st0: Store, st1: Store, st2: Store, st3: Store, ni: nat)
    requires ni in st0.nodes && st0.nodes.Keys <= st1.nodes.Keys && forall x :: x in st0.nodes && x != ni ==> st1.nodes[x] == st0.nodes[x]
    requires SameNodes(st1, st2, st0.nodes.Keys) && SameNodes(st2, st3, st0.nodes.Keys)
    ensures SameNodes(st0, st3, st0.nodes.Keys - {ni}) && ni in st3.nodes && ni in st1.nodes && st3.nodes[ni] == st1.nodes[ni]
  {
  }

  // What a file written from a tree of this shape gives back.
  lemma SavedComesBack(s: Shape, words: seq<set<nat>>)
    requires Appended([], words, 0, Flags(s))
    ensures Parse(words, Bytes(s), 0, 0) == Some((Wrapped(s), |Flags(s)|, |Bytes(s)|))
    ensures Wrapped(s) == s <==> Narrow(s)
  {
    hide Parse, Appended, Holds, FlagAt;
    AppendedFacts([], words, 0, Flags(s));
    assert Bytes(s)[0..|Bytes(s)|] == Bytes(s);
    ParseSaved(words, Bytes(s), 0, 0, s);
    WrappedIsNarrow(s);
  }

  // From the same root key, keys and split bits agree exactly when the shapes do.
  lemma SameKeysIsSameShape(st: Store, t: Tree, st': Store, u: Tree, s: Shape)
    requires Good(st, t, EMPTY_KEY) && Rebuilt(st', u, EMPTY_KEY, s)
    ensures SameKeys(st, t, st', u) <==> ShapeOf(st, t) == s
  {
    hide Good, SameKeys, Keyed;
    GoodKeyed(st, t, EMPTY_KEY);
    if ShapeOf(st, t) == s {
      ShapeGivesKeys(st, t, st', u, EMPTY_KEY);
    }
    if SameKeys(st, t, st', u) {
      KeysGiveShape(st, t, st', u);
    }
  }

  // The tree that the trial slot names, which is the one that is saved: the working
  // copy; the best tree, before the first step; else only a root that was freed.
  ghost function TrialTree(m: Main): Tree
    reads m
  {
    if m.work.Busy? then m.work.tree else if m.curRoot == m.minRoot then m.minTree else Leaf(m.curRoot)
  }

  ghost function TrialShape(m: Main): Shape
    reads m
  {
    ShapeOf(m.St(), TrialTree(m))
  }

  ghost function BestShape(m: Main): Shape
    reads m
  {
    ShapeOf(m.St(), m.minTree)
  }

  lemma TrialWalks(m: Main)
    requires m.Valid()
    ensures Walks(m.St(), TrialTree(m), EMPTY_KEY, m.curRoot) && SplitsOnce(TrialShape(m), {})
    ensures Good(m.St(), m.minTree, EMPTY_KEY)
  {
    hide Good, RefsOk, PoolOf, CostOf, NodesOf, Injective;
    if Good(m.St(), TrialTree(m), EMPTY_KEY) {
      GoodSplitsOnce(m.St(), TrialTree(m), EMPTY_KEY);
    }
  }

  // The tree that is saved has the shape of the best tree: always before the first
  // step; while a search is under way, if the working copy has it, for which as many
  // splits as joins must have been kept; afterwards, if the best tree is a single leaf.
  lemma SavesTheBest(m: Main)
    requires m.Valid()
    ensures TrialShape(m) == BestShape(m) <==>
            if m.nSteps > 0 then ShapeOf(m.St(), m.work.tree) == BestShape(m)
            else m.curRoot == m.minRoot || m.minTree.Leaf?
    ensures m.nSteps > 0 && TrialShape(m) == BestShape(m) ==> m.kept == 0
  {
    hide Good, RefsOk, PoolOf, CostOf, NodesOf, Injective;
    if m.nSteps > 0 && TrialShape(m) == BestShape(m) {
      SameShapeSameLeaves(m.St(), m.work.tree, m.minTree);
    }
  }

  lemma {:induction false} SameShapeSameLeaves(st: Store, t: Tree, u: Tree)
    requires ShapeOf(st, t) == ShapeOf(st, u)
    ensures Leaves(t) == Leaves(u)
  {
    if t.Split? {
      SameShapeSameLeaves(st, t.left, u.left);
      SameShapeSameLeaves(st, t.right, u.right);
    }
  }

  // Right after the copy was made the shapes agree.
  lemma {:induction false} CopySameShape(st: Store, t: Tree, u: Tree)
    requires CopyOf(st, t, u)
    ensures ShapeOf(st, u) == ShapeOf(st, t)
  {
    if t.Split? {
      CopySameShape(st, t.left, u.left);
      CopySameShape(st, t.right, u.right);
    }
  }

  method Save(m: Main) returns (s: TreeSave)
    requires m.Valid()
    ensures fresh(s) && s.splitBits == Bytes(TrialShape(m)) && Appended([], s.isSplit, 0, Flags(TrialShape(m)))
  {
    hide Walks, SplitsOnce;
    TrialWalks(m);
    s := new TreeSave();
    SaveHelper(m, s, m.curRoot, TrialTree(m), EMPTY_KEY);
  }

  lemma {:induction false} FirstLeaf(st: Store, t: Tree, c: Cost, d: Cost)
    requires Inv(st, t, Idle, c, d) && t.Leaf?
    ensures t.ni in st.nodes && t.ni != INVALID && st.nodes[t.ni].key == EMPTY_KEY
    ensures st.nodes[t.ni].sub0 == INVALID && st.nodes[t.ni].sub1 == INVALID
  {
  }

  lemma {:induction false} EmptyFacts(st: Store, t: Tree, c: Cost, d: Cost)
    requires Inv(st, t, Idle, c, d) && t.Leaf? && t.ni in st.nodes && st.nodes[t.ni].poolIndex == INVALID
    ensures NodesOf(t) == {t.ni} && st.nodes.Keys == {t.ni} && st.pool == map[] && c == Cost(0, 0, 0)
    ensures RefsOk(st.pool, {}, {})
  {
    assert PoolOf(st, t) == {} && WorkPool(st, Idle) == {};
    assert VecOf(st, t.ni) == [];
  }

  lemma {:induction false} RestoredInv(st: Store, st': Store, t: Tree, u: Tree, c: Cost, d: Cost, s: Shape)
    requires Inv(st, t, Idle, c, d) && t.Leaf? && t.ni in st.nodes && st.nodes[t.ni].poolIndex == INVALID && st.pairs == map[]
    requires st'.pool == st.pool && st'.pairs == st.pairs
    requires st'.nodes.Keys == st.nodes.Keys + NodesOf(u) && t.ni in NodesOf(u)
    requires Rebuilt(st', u, EMPTY_KEY, s) && SplitsOnce(s, {})
    ensures Inv(st', u, Idle, c, d)
  {
    hide Rebuilt, SplitsOnce, Good, PoolOf, CostOf, NodesOf, RefsOk;
    EmptyFacts(st, t, c, d);
    RebuiltGood(st', u, EMPTY_KEY, s);
  }

  // Into a tree that has only its first leaf yet, and no pairs.
  method Restore(m: Main, isSplit: seq<set<nat>>, splitBits: seq<nat>) returns (ok: bool)
    requires m.Valid() && m.nSteps == 0 && m.pairs == map[] && m.curRoot == m.minRoot
    requires m.minTree.Leaf? && m.minRoot in m.nodes && m.nodes[m.minRoot].poolIndex == INVALID
    modifies m`nodes, m`minTree
    ensures var r := Parse(isSplit, splitBits, 0, 0);
            && (ok <==> r.Some?)
            && (ok ==> Rebuilt(m.St(), m.minTree, EMPTY_KEY, r.value.0))
            && (ok && SplitsOnce(r.value.0, {}) ==> m.Valid())
  {
    hide Parse, Rebuilt, SplitsOnce, Good, RefsOk, PoolOf, CostOf, NodesOf, Injective;
    ghost var st := m.St();
    FirstLeaf(st, m.minTree, m.minCost, m.curCost);
    var s := new TreeSave();
    s.isSplit, s.splitBits := isSplit, splitBits;
    ghost var u;
    ok, u := RestoreHelper(m, s, m.curRoot, EMPTY_KEY);
    if ok {
      ghost var shape := Parse(isSplit, splitBits, 0, 0).value.0;
      if SplitsOnce(shape, {}) {
        RestoredInv(st, m.St(), m.minTree, u, m.minCost, m.curCost, shape);
      }
      m.minTree := u;
    }
  }

  // What m saves and m' restores has, node for node, the keys and split bits of the
  // best tree of m exactly when: before the first step, all its split bits are below
  // 256; during a search, the working copy has its shape but for split bits cut to
  // bytes; afterwards, it is a single leaf.
  method SaveThenRestore(m: Main, m': Main)
    requires m.Valid() && m != m' && m'.Valid() && m'.nSteps == 0 && m'.pairs == map[] && m'.curRoot == m'.minRoot
    requires m'.minTree.Leaf? && m'.minRoot in m'.nodes && m'.nodes[m'.minRoot].poolIndex == INVALID
    modifies m'`nodes, m'`minTree
    ensures BestShape(m') == Wrapped(TrialShape(m))
    ensures SameKeys(m.St(), m.minTree, m'.St(), m'.minTree) <==>
            if m.nSteps > 0 then BestShape(m) == Wrapped(ShapeOf(m.St(), m.work.tree))
            else if m.curRoot == m.minRoot then Narrow(BestShape(m))
            else m.minTree.Leaf?
    ensures m.nSteps > 0 ==>
              (SameKeys(m.St(), m.work.tree, m'.St(), m'.minTree) <==> Narrow(ShapeOf(m.St(), m.work.tree)))
    ensures Narrow(TrialShape(m)) ==> m'.Valid()
  {
    hide Parse, Rebuilt, SplitsOnce, Appended, SameKeys, Narrow, Good, RefsOk, PoolOf, CostOf, NodesOf, Injective, Walks;
    TrialWalks(m);
    var s := Save(m);
    SavedComesBack(TrialShape(m), s.isSplit);
    var ok := Restore(m', s.isSplit, s.splitBits);
    RebuiltShape(m'.St(), m'.minTree, Wrapped(TrialShape(m)));
    SameKeysIsSameShape(m.St(), m.minTree, m'.St(), m'.minTree, Wrapped(TrialShape(m)));
    if m.nSteps > 0 {
      SameKeysIsSameShape(m.St(), m.work.tree, m'.St(), m'.minTree, Wrapped(TrialShape(m)));
    }
  }

  lemma RebuiltShape(st: Store, u: Tree, s: Shape)
    requires Rebuilt(st, u, EMPTY_KEY, s)
    ensures ShapeOf(st, u) == s
  {
  }

  // A copy of two leaves over a root can be joined.
  lemma CopyIsJoinable(st: Store, t: Tree, u: Tree)
    requires CopyOf(st, t, u) && t.Split? && t.left.Leaf? && t.right.Leaf?
    ensures u.Split? && JoinableAt(u, u.ni, u.left.ni, u.right.ni)
  {
  }

  // No change is cheaper than a cost of nothing.
  lemma {:induction false} CostNotNegative(st: Store, t: Tree)
    ensures CostOf(st, t).occupancy >= 0 && CostOf(st, t).occupancy2 >= 0
  {
    match t
    case Leaf(_) =>
    case Split(_, l, r) =>
      CostNotNegative(st, l);
      CostNotNegative(st, r);
  }

  lemma NothingCheaper(m: Main)
    requires m.Sound() && m.work.Busy?
    ensures Score(m.curCost) >= 0 && Score(Cost(0, 0, 0)) == 0
  {
    hide Good, RefsOk, PoolOf, NodesOf, Injective;
    CostNotNegative(m.St(), m.work.tree);
  }

  // A run after which the file holds a single leaf and the best tree is a split: a
  // split is restored; a step joins the two empty leaves of the working copy, which
  // is kept but is no cheaper; a pair is added, which gives the copy up.
  method StaleSave(p: Key, luck: bool) returns (m: Main, s: TreeSave)
    ensures fresh(m) && m.Valid() && m.minTree.Split? && m.nSteps == 0 && p in m.pairs.Values
    ensures s.splitBits == [] && Appended([], s.isSplit, 0, [false]) && TrialShape(m) != BestShape(m)
  {
    hide Rebuilt, Inv, Appended, CopyOf, JoinableAt, JoinAccepted, Score, NodesOf, Leaves;
    m := RestoredFork();
    m.CloneTree();
    CopyIsJoinable(m.St(), m.minTree, m.work.tree);
    ghost var u := m.work.tree;
    RootIsNode(m.St(), m.minTree, u, m.minCost, m.curCost);
    var accepted := m.JoinLeaves(m.curRoot, luck, u.left.ni, u.right.ni);
    NothingCheaper(m);
    var found := m.EndStep(accepted);
    var panicked := m.AddDel(p, false);
    s := Save(m);
  }

  lemma RootIsNode(st: Store, t: Tree, u: Tree, c: Cost, d: Cost)
    requires Inv(st, t, Busy(u), c, d)
    ensures u.ni in st.nodes
  {
    hide Good, PoolOf, CostOf, RefsOk;
    AtRoot(st, t, u, c, d);
  }

  // Two leaves over a root, read from a file.
  method RestoredFork() returns (m: Main)
    ensures fresh(m) && m.Valid() && m.nSteps == 0 && m.pairs == map[] && m.minCost == Cost(0, 0, 0)
    ensures m.restartAfterSteps == 0 && BestShape(m) == Fork(5, Tip, Tip)
    ensures m.minTree.Split? && m.minTree.left.Leaf? && m.minTree.right.Leaf?
  {
    hide Rebuilt, Inv, NodesOf;
    m := new Main(4, 1, 0);
    ParseFork([{0}], [5], 0, 0, Tip, 2, 1, Tip, 3, 1);
    var ok := Restore(m, [{0}], [5]);
    RebuiltShape(m.St(), m.minTree, Fork(5, Tip, Tip));
  }
}

// When a split or a join of two leaves is kept.  The cost of a tree is its
// occupancy2 times its occupancy over the cube of the number of pairs; that
// number does not change between two trees that are compared, so the products
// are compared instead, exactly.
module TernaryCosts {
  import opened TernaryKeys
  import opened TernaryTree
  import opened TernarySteps

  function Score(c: Cost): int {
    c.occupancy2 * c.occupancy
  }

  // At a positive temperature a change that does not raise the cost always
  // passes; any other change passes with luck.
  predicate AcceptCostChange(before: Cost, after: Cost, luck: bool) {
    Score(after) <= Score(before) || luck
  }

  function SplitCost(c: Cost, l: nat, i0: nat, i1: nat): Cost {
    Cost(c.occupancy + (i0 + i1 - l), c.occupancy2 + (i0 * i0 + i1 * i1 - l * l),
         c.nonEmpty - 1 + (if i0 > 0 then 1 else 0) + (if i1 > 0 then 1 else 0))
  }

  predicate AcceptSplit(c: Cost, l: nat, i0: nat, i1: nat, luck: bool) {
    var after := SplitCost(c, l, i0, i1);
    Score(after) < Score(c) || (i0 > 0 && i1 > 0 && AcceptCostChange(c, after, luck))
  }

  // Whether a leaf that holds vec is split on bit when the tree costs c.
  predicate SplitAccepted(vec: seq<nat>, pairs: map<nat, Key>, bit: nat, c: Cost, luck: bool) {
    vec != [] && AcceptSplit(c, |vec|, |Side(vec, pairs, bit, false)|, |Side(vec, pairs, bit, true)|, luck)
  }

  function JoinCost(c: Cost, l: nat, l0: nat, l1: nat): Cost {
    Cost(c.occupancy + (l - l0 - l1), c.occupancy2 + (l * l - l0 * l0 - l1 * l1),
         c.nonEmpty + (if l > 0 then 1 else 0) - (if l0 > 0 then 1 else 0) - (if l1 > 0 then 1 else 0))
  }

  // Whether leaves that hold v0 and v1 are joined when the tree costs c.
  predicate JoinAccepted(v0: seq<nat>, v1: seq<nat>, pairs: map<nat, Key>, bit: nat, c: Cost, luck: bool) {
    AcceptCostChange(c, JoinCost(c, |v0| + |Masked(v1, pairs, bit)|, |v0|, |v1|), luck)
  }

  // Each pair goes to one side at least.
  lemma {:induction false} SidesCover(vec: seq<nat>, pairs: map<nat, Key>, bit: nat)
    requires forall o :: o in vec ==> o in pairs
    ensures var l0, l1 := |Side(vec, pairs, bit, false)|, |Side(vec, pairs, bit, true)|;
            l0 <= |vec| && l1 <= |vec| && |vec| <= l0 + l1
  {
    if vec != [] {
      SidesCover(vec[..|vec| - 1], pairs, bit);
      assert vec[|vec| - 1] in pairs;
    }
  }

  lemma EmptyHalfKeepsCost(c: Cost, l: nat, i0: nat, i1: nat, luck: bool)
    ensures i0 <= l && i1 <= l && 0 < l <= i0 + i1 && (i0 == 0 || i1 == 0) ==> !AcceptSplit(c, l, i0, i1, luck)
  {
    if i0 <= l && i1 <= l && 0 < l <= i0 + i1 && (i0 == 0 || i1 == 0) {
      assert i0 + i1 == l && (i0 == l || i1 == l);
      assert SplitCost(c, l, i0, i1) == c;
    }
  }

  // A split that is kept leaves pairs on both sides, whatever the luck.
  lemma AcceptedSplitHasNoEmptyHalf(vec: seq<nat>, pairs: map<nat, Key>, bit: nat, c: Cost, luck: bool)
    requires forall o :: o in vec ==> o in pairs
    requires AcceptSplit(c, |vec|, |Side(vec, pairs, bit, false)|, |Side(vec, pairs, bit, true)|, luck)
    requires vec != []
    ensures Side(vec, pairs, bit, false) != [] && Side(vec, pairs, bit, true) != []
  {
    SidesCover(vec, pairs, bit);
    EmptyHalfKeepsCost(c, |vec|, |Side(vec, pairs, bit, false)|, |Side(vec, pairs, bit, true)|, luck);
  }

  // The counts a split and a join carry are those of a recount of the leaves.
  lemma StepCostIsRecount(c: Cost, l: nat, l0: nat, l1: nat)
    ensures l > 0 ==> SplitCost(c, l, l0, l1) == c.Minus(CostOfSize(l)).Plus(CostOfSize(l0).Plus(CostOfSize(l1)))
    ensures JoinCost(c, l, l0, l1) == c.Minus(CostOfSize(l0).Plus(CostOfSize(l1))).Plus(CostOfSize(l))
  {
  }

  // Two empty leaves are always joined: the counts do not change.
  lemma EmptyLeavesAlwaysJoin(v0: seq<nat>, v1: seq<nat>, pairs: map<nat, Key>, bit: nat, c: Cost, luck: bool)
    ensures v0 == [] && v1 == [] ==> JoinAccepted(v0, v1, pairs, bit, c, luck)
  {
    if v0 == [] && v1 == [] {
      assert JoinCost(c, 0, 0, 0) == c;
    }
  }

  lemma {:induction false} MaskedFewer(v: seq<nat>, pairs: map<nat, Key>, bit: nat)
    requires forall o :: o in v ==> o in pairs
    ensures |Masked(v, pairs, bit)| <= |v|
  {
    if v != [] {
      MaskedFewer(v[..|v| - 1], pairs, bit);
    }
  }

  // By the counts alone: with luck any change is kept that leaves no empty half,
  // without luck only one that does not raise their product.
  lemma KeptByCost(vec: seq<nat>, pairs: map<nat, Key>, bit: nat, c: Cost)
    requires (forall o :: o in vec ==> o in pairs) && vec != []
    ensures var l, i0, i1 := |vec|, |Side(vec, pairs, bit, false)|, |Side(vec, pairs, bit, true)|;
            && (SplitAccepted(vec, pairs, bit, c, true) <==> i0 > 0 && i1 > 0)
            && (SplitAccepted(vec, pairs, bit, c, false) <==>
                  i0 > 0 && i1 > 0
                  && (c.occupancy2 - l * l + i0 * i0 + i1 * i1) * (c.occupancy - l + i0 + i1) <= c.occupancy2 * c.occupancy)
  {
    SidesCover(vec, pairs, bit);
    EmptyHalfKeepsCost(c, |vec|, |Side(vec, pairs, bit, false)|, |Side(vec, pairs, bit, true)|, true);
    EmptyHalfKeepsCost(c, |vec|, |Side(vec, pairs, bit, false)|, |Side(vec, pairs, bit, true)|, false);
  }

  lemma JoinedByCost(v0: seq<nat>, v1: seq<nat>, pairs: map<nat, Key>, bit: nat, c: Cost)
    ensures var l, l0, l1 := |v0| + |Masked(v1, pairs, bit)|, |v0|, |v1|;
            && JoinAccepted(v0, v1, pairs, bit, c, true)
            && (JoinAccepted(v0, v1, pairs, bit, c, false) <==>
                  (c.occupancy2 + l * l - l0 * l0 - l1 * l1) * (c.occupancy + l - l0 - l1) <= c.occupancy2 * c.occupancy)
  {
    var l, l0, l1 := |v0| + |Masked(v1, pairs, bit)|, |v0|, |v1|;
    assert JoinCost(c, l, l0, l1).occupancy2 == c.occupancy2 + l * l - l0 * l0 - l1 * l1;
    assert JoinCost(c, l, l0, l1).occupancy == c.occupancy + l - l0 - l1;
  }
}

// Ternary match keys, and what it means that a pair can still match something
// under a tree node.  A word is the set of its bits; bit numbers run over the
// whole key.
module TernaryKeys {

  // x matches when x and value agree on the bits of mask.
  datatype Key = Key(mask: set<nat>, value: set<nat>)

  const EMPTY_KEY := Key({}, {})

  // Where both are masked, the values agree.
  ghost predicate Compatible(p: Key, k: Key) {
    forall b :: b in p.mask && b in k.mask ==> (b in p.value <==> b in k.value)
  }

  predicate Clean(k: Key) {
    k.value <= k.mask
  }

  // Key of the sub node for bit value 0, and 1.
  function Key0(k: Key, bit: nat): Key {
    Key(k.mask + {bit}, k.value)
  }

  function Key1(k: Key, bit: nat): Key {
    Key(k.mask + {bit}, k.value + {bit})
  }

  // Pairs with the bit unmasked go both ways.
  function Branch(p: Key, bit: nat): (bool, bool) {
    if bit !in p.mask then (true, true) else (bit !in p.value, bit in p.value)
  }

  lemma BranchIsCompatible(p: Key, k: Key, bit: nat)
    requires Clean(k) && bit !in k.mask
    ensures Clean(Key0(k, bit)) && Clean(Key1(k, bit))
    ensures Compatible(p, Key0(k, bit)) <==> Compatible(p, k) && Branch(p, bit).0
    ensures Compatible(p, Key1(k, bit)) <==> Compatible(p, k) && Branch(p, bit).1
  {
    if Compatible(p, Key0(k, bit)) {
      forall b | b in p.mask && b in k.mask
        ensures b in p.value <==> b in k.value
      {
        assert b in Key0(k, bit).mask;
      }
      assert bit in Key0(k, bit).mask;
    }
    if Compatible(p, Key1(k, bit)) {
      forall b | b in p.mask && b in k.mask
        ensures b in p.value <==> b in k.value
      {
        assert b in Key1(k, bit).mask;
      }
      assert bit in Key1(k, bit).mask;
    }
  }

  // x, all of whose bits count, matches p.
  ghost predicate Matches(p: Key, x: set<nat>) {
    forall b :: b in p.mask ==> (b in x <==> b in p.value)
  }

  // Something that matches both is a witness of compatibility.
  lemma MatchBoth(p: Key, k: Key, x: set<nat>)
    requires Matches(p, x) && Matches(k, x)
    ensures Compatible(p, k)
  {
  }

  lemma MatchSub(k: Key, bit: nat, x: set<nat>)
    requires Clean(k) && bit !in k.mask && Matches(k, x)
    ensures if bit in x then Matches(Key1(k, bit), x) else Matches(Key0(k, bit), x)
  {
  }
}

// Notions that several parts share.
module Basics {

  datatype Option<T> = None | Some(value: T)

  // No entry twice.
  ghost predicate Distinct(s: seq<nat>) {
    forall i, j :: 0 <= i < j < |s| ==> s[i] != s[j]
  }

  // s without its i-th entry.
  function Without(s: seq<nat>, i: nat): seq<nat>
    requires i < |s|
  {
    s[..i] + s[i + 1..]
  }

  lemma WithoutMembers(s: seq<nat>, i: nat)
    requires Distinct(s) && i < |s|
    ensures Distinct(Without(s, i)) && forall y :: y in Without(s, i) <==> y in s && y != s[i]
  {
    var t := Without(s, i);
    forall y | y in s && y != s[i]
      ensures y in t
    {
      var k :| 0 <= k < |s| && s[k] == y;
      assert t[if k < i then k else k - 1] == y;
    }
  }

  // s with x put right behind its i-th entry.
  function InsertAfter(s: seq<nat>, i: nat, x: nat): seq<nat>
    requires i < |s|
  {
    s[..i + 1] + [x] + s[i + 1..]
  }

  function Upto(n: nat): (s: set<nat>)
    ensures forall i: nat :: i in s <==> i < n
  {
    if n == 0 then {} else Upto(n - 1) + {n - 1}
  }

  lemma MemberAt(s: seq<nat>, x: nat) returns (i: nat)
    requires x in s
    ensures i < |s| && s[i] == x
  {
    i :| 0 <= i < |s| && s[i] == x;
  }
}

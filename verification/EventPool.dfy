// Timed events held in a pool and ordered by a Fibonacci heap of pool indices.
module EventPools {
  import opened Basics
  import opened FibLinks
  import opened FibShape
  import opened FibDegree
  import opened FibInvariant
  import opened FibHeaps

  const TWO_63 := 0x8000_0000_0000_0000
  const TWO_64 := 0x1_0000_0000_0000_0000

  // Unsigned 64-bit time stamp.
  type Time = t: nat | t < TWO_64

  datatype TimedActor = TimedActor(id: nat, time: Time)

  // Signed reading of the unsigned 64-bit difference a - b.
  function SignedDiff(a: Time, b: Time): int {
    var d := (a - b) % TWO_64;
    if d < TWO_63 then d else d - TWO_64
  }

  // The sign of the difference orders two times rightly exactly when they are
  // less than 2^63 apart, or the first is exactly 2^63 earlier.
  lemma DiffOrders(a: Time, b: Time)
    ensures (SignedDiff(a, b) < 0 <==> a < b) && (SignedDiff(a, b) == 0 <==> a == b) <==> -TWO_63 <= a - b < TWO_63
  {
    if a - b >= 0 {
      assert (a - b) % TWO_64 == a - b;
    } else {
      assert (a - b) % TWO_64 == a - b + TWO_64;
    }
  }

  // Over the whole 64-bit range the comparison is not even transitive.
  lemma DiffNotTransitive()
    ensures exists a: Time, b: Time, c: Time :: SignedDiff(a, b) < 0 && SignedDiff(b, c) < 0 && SignedDiff(a, c) > 0
  {
    var a: Time, b: Time, c: Time := 0, TWO_63 - 1, TWO_64 - 2;
    assert (a - b) % TWO_64 == TWO_63 + 1 && (b - c) % TWO_64 == TWO_63 + 1 && (a - c) % TWO_64 == 2;
    assert SignedDiff(a, b) < 0 && SignedDiff(b, c) < 0 && SignedDiff(a, c) > 0;
  }

  function Compare(events: seq<TimedActor>): Ordering {
    (i: nat, j: nat) => if i < |events| && j < |events| then SignedDiff(events[i].time, events[j].time) else 0
  }

  // All events of s lie in a window of less than 2^63.
  ghost predicate Near(events: seq<TimedActor>, s: set<nat>) {
    && (forall i :: i in s ==> i < |events|)
    && (forall i, j :: i in s && j in s ==> TimeOf(events, i) - TimeOf(events, j) < TWO_63)
  }

  lemma NearTimesOrdered(events: seq<TimedActor>, s: set<nat>)
    requires Near(events, s)
    ensures forall i, j :: i in s && j in s ==> Compare(events)(i, j) == events[i].time - events[j].time
    ensures TotalPreorder(Compare(events), s)
  {
    forall i, j | i in s && j in s
      ensures Compare(events)(i, j) == events[i].time - events[j].time
    {
      var a, b := events[i].time, events[j].time;
      assert TimeOf(events, i) - TimeOf(events, j) < TWO_63 && TimeOf(events, j) - TimeOf(events, i) < TWO_63;
      assert (a - b) % TWO_64 == if a >= b then a - b else a - b + TWO_64;
    }
  }

  lemma NearSubset(events: seq<TimedActor>, s: set<nat>, t: set<nat>)
    requires Near(events, s) && t <= s
    ensures Near(events, t)
  {
  }

  // Heap order looks at live elements only.
  lemma OrderedByLive(h: FibHeap, c1: Ordering, c2: Ordering)
    requires h.Valid() && h.Ordered(c1)
    requires forall i, j :: i in h.Live() && j in h.Live() ==> c1(i, j) == c2(i, j)
    ensures h.Ordered(c2)
  {
    if |h.nodes| > 0 {
      forall p, c | p in h.kids && p != NIL && c in h.kids[p]
        ensures c2(p, c) <= 0
      {
        assert Owned(h.Store(), h.kids, p);
        assert c1(p, c) <= 0;
      }
    }
  }

  // The free list names distinct slots of the pool that hold no queued event.
  ghost predicate FreeSlots(free: seq<nat>, n: nat, live: set<nat>) {
    && Distinct(free)
    && forall k :: 0 <= k < |free| ==> free[k] < n && free[k] !in live
  }

  function TimeOf(events: seq<TimedActor>, i: nat): nat {
    if i < |events| then events[i].time else 0
  }

  ghost predicate InOrder(events: seq<TimedActor>, idx: seq<nat>) {
    forall j, k :: 0 <= j < k < |idx| ==> TimeOf(events, idx[j]) <= TimeOf(events, idx[k])
  }

  // idx lists the members of s whose time is at most t, earliest first.
  ghost predicate Expired(events: seq<TimedActor>, s: set<nat>, t: Time, idx: seq<nat>) {
    && Distinct(idx)
    && (forall i :: i in s ==> i < |events|)
    && (forall i :: i in idx <==> i in s && i < |events| && events[i].time <= t)
    && InOrder(events, idx)
  }

  // idx lists members of s of time at most t, earliest first; those of live are
  // left and none of them is earlier.
  ghost predicate Expiring(events: seq<TimedActor>, s: set<nat>, t: Time, idx: seq<nat>, live: set<nat>) {
    && Distinct(idx) && Near(events, s)
    && (forall i :: i in idx ==> i in s && i < |events| && events[i].time <= t)
    && InOrder(events, idx)
    && (forall i :: i in live <==> i in s && i !in idx)
    && (forall i, y :: i in idx && y in live ==> TimeOf(events, i) <= TimeOf(events, y))
  }

  lemma ExpireNone(events: seq<TimedActor>, s: set<nat>, t: Time)
    requires Near(events, s)
    ensures Expiring(events, s, t, [], s)
  {
  }

  lemma ExpireOne(events: seq<TimedActor>, s: set<nat>, t: Time, idx: seq<nat>, live: set<nat>, ei: nat)
    requires Expiring(events, s, t, idx, live) && Near(events, live)
    requires ei in live && events[ei].time <= t && forall y :: y in live ==> events[ei].time <= events[y].time
    ensures Expiring(events, s, t, idx + [ei], live - {ei})
  {
    var idx' := idx + [ei];
    forall j, k | 0 <= j < k < |idx'|
      ensures TimeOf(events, idx'[j]) <= TimeOf(events, idx'[k]) && idx'[j] != idx'[k]
    {
      assert idx[j] in idx;
      assert k < |idx| ==> idx[k] in idx;
    }
  }

  lemma ExpiredAll(events: seq<TimedActor>, s: set<nat>, t: Time, idx: seq<nat>, live: set<nat>)
    requires Expiring(events, s, t, idx, live) && forall y :: y in live && y < |events| ==> events[y].time > t
    ensures Expired(events, s, t, idx)
    ensures live == set i | i in s && i < |events| && events[i].time > t
  {
  }

  lemma LeastIsEarliest(events: seq<TimedActor>, s: set<nat>, ei: nat, valid: bool)
    requires Near(events, s) && (valid <==> s != {}) && (valid ==> IsLeast(Compare(events), ei, s))
    ensures valid ==> ei in s && ei < |events| && forall y :: y in s ==> y < |events| && events[ei].time <= events[y].time
  {
    NearTimesOrdered(events, s);
  }

  class Pool {
    // Pool data and its free slots, last freed last.
    var events: seq<TimedActor>
    var freeIndices: seq<nat>
    const fibheap: FibHeap

    ghost predicate Valid()
      reads this, fibheap
    {
      && fibheap.Valid() && fibheap.Ordered(Compare(events))
      && |events| <= ROOT && Near(events, fibheap.Live())
      && FreeSlots(freeIndices, |events|, fibheap.Live())
    }

    ghost function Live(): set<nat>
      reads fibheap
    {
      fibheap.Live()
    }

    constructor ()
      ensures Valid() && Live() == {} && events == [] && fresh(fibheap)
    {
      events, freeIndices := [], [];
      fibheap := new FibHeap();
    }

    // Reuse the slot freed last, or extend the pool.
    method GetIndex(e: TimedActor) returns (ei: nat)
      requires |events| < ROOT && Near(events, Live()) && FreeSlots(freeIndices, |events|, Live())
      modifies this
      ensures ei < |events| && events[ei] == e && ei !in Live()
      ensures |events| <= ROOT && |old(events)| <= |events|
      ensures forall i :: 0 <= i < |old(events)| && i != ei ==> events[i] == old(events)[i]
      ensures FreeSlots(freeIndices, |events|, Live() + {ei})
      ensures if old(freeIndices) == [] then ei == |old(events)| && freeIndices == []
              else old(freeIndices) == freeIndices + [ei] && |events| == |old(events)|
    {
      hide FibHeap.Valid, FibHeap.Ordered, FibHeap.Live;
      var l := |freeIndices|;
      if l != 0 {
        ei := freeIndices[l - 1];
        freeIndices := freeIndices[..l - 1];
        events := events[ei := e];
      } else {
        ei := |events|;
        events := events + [e];
      }
    }

    // The slot is the one freed last, or a new one if none is free.
    method Add(e: TimedActor) returns (ei: nat)
      requires Valid() && |events| < ROOT
      requires forall i :: i in Live() && i < |events| ==> -TWO_63 < e.time - events[i].time < TWO_63
      modifies this, fibheap
      ensures Valid() && ei !in old(Live()) && Live() == old(Live()) + {ei}
      ensures ei < |events| && events[ei] == e
      ensures if old(freeIndices) == [] then ei == |old(events)| && freeIndices == []
              else old(freeIndices) == freeIndices + [ei] && |events| == |old(events)|
      ensures forall i :: i in old(Live()) ==> i < |old(events)| && i < |events| && events[i] == old(events)[i]
    {
      hide FibHeap.Valid, FibHeap.Ordered, FibHeap.OrderedExcept, FibHeap.Live, TotalPreorder, Compare, IsLeast;
      ghost var c0 := Compare(events);
      NearTimesOrdered(events, Live());
      ei := GetIndex(e);
      NearTimesOrdered(events, Live());
      OrderedByLive(fibheap, c0, Compare(events));
      fibheap.Add(ei);
    }

    // The slot of the event becomes the one freed last, which the next Add takes.
    method Del(ei: nat)
      requires Valid() && ei in Live()
      modifies this, fibheap
      ensures Valid() && Live() == old(Live()) - {ei} && events == old(events) && freeIndices == old(freeIndices) + [ei]
    {
      hide FibHeap.Valid, FibHeap.Ordered, FibHeap.OrderedExcept, FibHeap.Live, TotalPreorder, Compare, IsLeast;
      fibheap.OrderedAway(Compare(events), ei);
      fibheap.Del(ei);
      // PutIndex ignores a slot that is already free.
      if ei !in freeIndices {
        freeIndices := freeIndices + [ei];
      }
    }

    // Take all events up to and including time t, earliest first.
    method Advance(t: Time) returns (acted: seq<TimedActor>, ghost idx: seq<nat>)
      requires Valid() && |Live()| < FIB_34
      modifies fibheap
      ensures Valid() && events == old(events)
      ensures Live() == set i | i in old(Live()) && i < |events| && events[i].time > t
      ensures Expired(events, old(Live()), t, idx)
      ensures |acted| == |idx| && forall k :: 0 <= k < |idx| ==> idx[k] < |events| && acted[k] == events[idx[k]]
    {
      hide FibHeap.Valid, FibHeap.Ordered, FibHeap.OrderedExcept, FibHeap.Live, TotalPreorder, Compare, IsLeast, Expiring, Near;
      acted, idx := [], [];
      ghost var live0 := Live();
      ExpireNone(events, live0, t);
      while true
        invariant Valid() && events == old(events) && |Live()| < FIB_34
        invariant Expiring(events, live0, t, idx, Live())
        invariant |acted| == |idx| && forall k :: 0 <= k < |idx| ==> idx[k] < |events| && acted[k] == events[idx[k]]
        decreases Live()
      {
        NearTimesOrdered(events, Live());
        var ei, valid := fibheap.Min(Compare(events));
        LeastIsEarliest(events, Live(), ei, valid);
        if !valid {
          break;
        }
        var e := events[ei];
        if e.time > t {
          break;
        }
        ghost var before := Live();
        fibheap.OrderedAway(Compare(events), ei);
        fibheap.Del(ei);
        ExpireOne(events, live0, t, idx, before, ei);
        SubsetSize(Live(), before);
        NearSubset(events, before, Live());
        acted, idx := acted + [e], idx + [ei];
      }
      ExpiredAll(events, live0, t, idx, Live());
    }

    method NextTime() returns (t: Time, valid: bool)
      requires Valid() && |Live()| < FIB_34
      modifies fibheap
      ensures Valid() && Live() == old(Live())
      ensures valid <==> Live() != {}
      ensures valid ==> exists i :: i in Live() && i < |events| && events[i].time == t
      ensures valid ==> forall i :: i in Live() ==> i < |events| && t <= events[i].time
    {
      hide FibHeap.Valid, FibHeap.Ordered, FibHeap.OrderedExcept, FibHeap.Live, TotalPreorder, Compare, IsLeast, Expiring, Near;
      NearTimesOrdered(events, Live());
      var ei;
      ei, valid := fibheap.Min(Compare(events));
      LeastIsEarliest(events, Live(), ei, valid);
      t := 0;
      if valid {
        t := events[ei].time;
      }
    }
  }
}

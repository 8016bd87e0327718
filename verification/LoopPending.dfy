// Frames pending between the nodes of the run loop: a node sets the length of an
// output, and a worklist calls the nodes behind the outputs that were set.
module LoopPending {
  import opened Basics

  const MAX_VECTOR_LEN: nat := 256

  // Output x of a node.
  datatype Edge = Edge(node: nat, x: nat)

  // What a node has per output: a length of 8 bits, and whether it is pending.
  datatype Out = Out(len: seq<nat>, nextNodes: seq<nat>, isPending: set<nat>)

  // The node behind an edge is called with a length.
  datatype Call = Call(edge: Edge, node: nat, len: nat)

  // A node sets output x to n vectors.
  datatype Send = Send(x: nat, n: nat)

  // An 8-bit length as it is read back: 0 on a pending output means 256.
  function Read8(n: nat): (r: nat)
    ensures 1 <= r <= MAX_VECTOR_LEN
  {
    if n % 256 == 0 then MAX_VECTOR_LEN else n % 256
  }

  // A length is read back as it was set exactly from 1 to 256.
  lemma ReadBack(n: nat)
    ensures Read8(n) == n <==> 1 <= n <= MAX_VECTOR_LEN
  {
  }

  // ---- what the worklist is to do: a queue of edges without repetition, and the
  // length last set for each

  datatype Queue = Queue(edges: seq<Edge>, want: map<Edge, nat>)

  function AfterSend(q: Queue, e: Edge, n: nat): Queue {
    Queue(if n > 0 && e !in q.edges then q.edges + [e] else q.edges, q.want[e := n])
  }

  function AfterSends(q: Queue, node: nat, sends: seq<Send>): Queue {
    if sends == [] then q
    else
      var r := AfterSends(q, node, sends[..|sends| - 1]);
      AfterSend(r, Edge(node, sends[|sends| - 1].x), sends[|sends| - 1].n)
  }

  function Wanted(q: Queue, e: Edge): nat {
    if e in q.want then q.want[e] else 0
  }

  // What the nodes do: the sends of the k-th call, when it is to this node.  From
  // call quiet on no node sends.
  type Behaviour = (nat, nat) -> seq<Send>

  ghost predicate Fitting(sends: seq<Send>, n: nat) {
    forall i :: 0 <= i < |sends| ==> sends[i].x < n
  }

  ghost predicate Sensible(act: Behaviour, quiet: nat, graph: seq<seq<nat>>) {
    && (forall k: nat, n: nat :: k >= quiet ==> act(k, n) == [])
    && (forall k: nat, n: nat :: n < |graph| ==> Fitting(act(k, n), |graph[n]|))
  }

  // The node behind an edge.
  function Behind(graph: seq<seq<nat>>, e: Edge): nat {
    if e.node < |graph| && e.x < |graph[e.node]| then graph[e.node][e.x] else 0
  }

  function AfterTake(q: Queue): Queue
    requires q.edges != []
  {
    Queue(q.edges[1..], q.want[q.edges[0] := 0])
  }

  // The calls made from call k on: first in, first out.
  function Calls(q: Queue, k: nat, quiet: nat, act: Behaviour, graph: seq<seq<nat>>): seq<Call>
    requires forall i: nat, n: nat :: i >= quiet ==> act(i, n) == []
    decreases if k < quiet then quiet - k else 0, |q.edges|
  {
    if q.edges == [] then []
    else
      var e := q.edges[0];
      var n := Behind(graph, e);
      [Call(e, n, Read8(Wanted(q, e)))] + Calls(AfterSends(AfterTake(q), n, act(k, n)), k + 1, quiet, act, graph)
  }

  lemma {:induction false} SendsGrow(q: Queue, node: nat, sends: seq<Send>)
    ensures q.edges <= AfterSends(q, node, sends).edges
  {
    if sends != [] {
      SendsGrow(q, node, sends[..|sends| - 1]);
    }
  }

  // Whatever the nodes do, the edges on the worklist are called in their order,
  // each in its turn.
  lemma {:induction false} CallsInOrder(q: Queue, k: nat, quiet: nat, act: Behaviour, graph: seq<seq<nat>>, i: nat)
    requires forall j: nat, n: nat :: j >= quiet ==> act(j, n) == []
    requires i < |q.edges|
    ensures i < |Calls(q, k, quiet, act, graph)| && Calls(q, k, quiet, act, graph)[i].edge == q.edges[i]
    decreases i
  {
    if i > 0 {
      var n := Behind(graph, q.edges[0]);
      var r := AfterSends(AfterTake(q), n, act(k, n));
      SendsGrow(AfterTake(q), n, act(k, n));
      assert r.edges[i - 1] == AfterTake(q).edges[i - 1];
      CallsInOrder(r, k + 1, quiet, act, graph, i - 1);
    }
  }

  // The queue before the i-th call from call k on.
  function QueueAt(q: Queue, k: nat, act: Behaviour, graph: seq<seq<nat>>, i: nat): Queue
    decreases i
  {
    if i == 0 || q.edges == [] then q
    else
      var n := Behind(graph, q.edges[0]);
      QueueAt(AfterSends(AfterTake(q), n, act(k, n)), k + 1, act, graph, i - 1)
  }

  // The edges that become pending from call k on, in that order.
  function Arrivals(q: Queue, k: nat, quiet: nat, act: Behaviour, graph: seq<seq<nat>>): seq<Edge>
    requires forall i: nat, n: nat :: i >= quiet ==> act(i, n) == []
    decreases if k < quiet then quiet - k else 0, |q.edges|
  {
    if q.edges == [] then []
    else
      var n := Behind(graph, q.edges[0]);
      var r := AfterSends(AfterTake(q), n, act(k, n));
      (if |AfterTake(q).edges| <= |r.edges| then r.edges[|AfterTake(q).edges|..] else []) + Arrivals(r, k + 1, quiet, act, graph)
  }

  function EdgesOf(log: seq<Call>): seq<Edge> {
    seq(|log|, i requires 0 <= i < |log| => log[i].edge)
  }

  // The edges called are those pending and then those that became so, in order.
  lemma {:induction false} AllInOrder(q: Queue, k: nat, quiet: nat, act: Behaviour, graph: seq<seq<nat>>)
    requires forall i: nat, n: nat :: i >= quiet ==> act(i, n) == []
    ensures EdgesOf(Calls(q, k, quiet, act, graph)) == q.edges + Arrivals(q, k, quiet, act, graph)
    decreases if k < quiet then quiet - k else 0, |q.edges|
  {
    hide Calls, Arrivals, AfterSends, Behind;
    CallsNone(quiet, act, graph);
    if q.edges != [] {
      var t, n := AfterTake(q), Behind(graph, q.edges[0]);
      var r := AfterSends(t, n, act(k, n));
      SendsGrow(t, n, act(k, n));
      QuietSends(t, k, n, act, quiet);
      AllInOrder(r, k + 1, quiet, act, graph);
      CallsStep(q, k, quiet, act, graph);
      ArrivalsStep(q, k, quiet, act, graph);
      assert r.edges == t.edges + r.edges[|t.edges|..];
      assert q.edges == [q.edges[0]] + t.edges;
      var d, later := r.edges[|t.edges|..], Arrivals(r, k + 1, quiet, act, graph);
      EdgesJoin(Call(q.edges[0], n, Read8(Wanted(q, q.edges[0]))), Calls(r, k + 1, quiet, act, graph));
      assert [q.edges[0]] + (t.edges + d + later) == [q.edges[0]] + t.edges + (d + later);
    } else {
      ArrivalsNone(q, k, quiet, act, graph);
    }
  }

  lemma EdgesJoin(c: Call, log: seq<Call>)
    ensures EdgesOf([c] + log) == [c.edge] + EdgesOf(log)
  {
  }

  lemma QuietSends(t: Queue, k: nat, n: nat, act: Behaviour, quiet: nat)
    requires forall i: nat, n: nat :: i >= quiet ==> act(i, n) == []
    ensures k >= quiet ==> AfterSends(t, n, act(k, n)) == t
  {
  }

  lemma ArrivalsNone(q: Queue, k: nat, quiet: nat, act: Behaviour, graph: seq<seq<nat>>)
    requires forall i: nat, n: nat :: i >= quiet ==> act(i, n) == []
    requires q.edges == []
    ensures Arrivals(q, k, quiet, act, graph) == []
  {
  }

  lemma ArrivalsStep(q: Queue, k: nat, quiet: nat, act: Behaviour, graph: seq<seq<nat>>)
    requires forall i: nat, n: nat :: i >= quiet ==> act(i, n) == []
    requires q.edges != []
    ensures var n := Behind(graph, q.edges[0]);
            var r := AfterSends(AfterTake(q), n, act(k, n));
            |AfterTake(q).edges| <= |r.edges| ==>
              Arrivals(q, k, quiet, act, graph) == r.edges[|AfterTake(q).edges|..] + Arrivals(r, k + 1, quiet, act, graph)
  {
  }

  // The i-th call is to the first edge of the queue then, with the length that
  // edge then has.
  lemma {:induction false} CallAt(q: Queue, k: nat, quiet: nat, act: Behaviour, graph: seq<seq<nat>>, i: nat)
    requires forall j: nat, n: nat :: j >= quiet ==> act(j, n) == []
    requires i < |Calls(q, k, quiet, act, graph)|
    ensures var r := QueueAt(q, k, act, graph, i);
            r.edges != [] && Calls(q, k, quiet, act, graph)[i] == Call(r.edges[0], Behind(graph, r.edges[0]), Read8(Wanted(r, r.edges[0])))
    decreases i
  {
    hide Calls, AfterSends, Behind, Wanted, Read8;
    CallsNone(quiet, act, graph);
    if q.edges != [] {
      CallsStep(q, k, quiet, act, graph);
    }
    if i > 0 {
      var n := Behind(graph, q.edges[0]);
      CallAt(AfterSends(AfterTake(q), n, act(k, n)), k + 1, quiet, act, graph, i - 1);
    }
  }

  // The i-th send is the last one to e.
  ghost predicate LastAt(node: nat, sends: seq<Send>, e: Edge, i: nat) {
    i < |sends| && Edge(node, sends[i].x) == e && forall j :: i < j < |sends| ==> Edge(node, sends[j].x) != e
  }

  lemma WantedStep(q: Queue, node: nat, sends: seq<Send>, e: Edge)
    requires sends != []
    ensures var last := sends[|sends| - 1];
            Wanted(AfterSends(q, node, sends), e) ==
              if Edge(node, last.x) == e then last.n else Wanted(AfterSends(q, node, sends[..|sends| - 1]), e)
  {
  }

  // The length an edge has after some sends is the one set last, and the one it
  // had before if none sets it.
  lemma {:induction false} LastSet(q: Queue, node: nat, sends: seq<Send>, e: Edge)
    ensures (forall i :: 0 <= i < |sends| ==> Edge(node, sends[i].x) != e) ==> Wanted(AfterSends(q, node, sends), e) == Wanted(q, e)
    ensures forall i: nat :: LastAt(node, sends, e, i) ==> Wanted(AfterSends(q, node, sends), e) == sends[i].n
  {
    if sends == [] {
      return;
    }
    hide Wanted, AfterSends;
    var l := |sends| - 1;
    LastSet(q, node, sends[..l], e);
    WantedStep(q, node, sends, e);
    forall i: nat | LastAt(node, sends, e, i)
      ensures Wanted(AfterSends(q, node, sends), e) == sends[i].n
    {
      assert i < l ==> LastAt(node, sends[..l], e, i);
    }
  }

  // Only edges of the queue have a length.
  ghost predicate Settled(q: Queue) {
    forall e :: e in q.want && e !in q.edges ==> q.want[e] == 0
  }

  lemma {:induction false} SendsSettled(q: Queue, node: nat, sends: seq<Send>)
    requires Settled(q)
    ensures Settled(AfterSends(q, node, sends))
  {
    if sends != [] {
      hide AfterSends;
      SendsSettled(q, node, sends[..|sends| - 1]);
      SendsStep(q, node, sends);
    }
  }

  lemma SendsStep(q: Queue, node: nat, sends: seq<Send>)
    requires sends != []
    ensures var last := sends[|sends| - 1];
            AfterSends(q, node, sends) == AfterSend(AfterSends(q, node, sends[..|sends| - 1]), Edge(node, last.x), last.n)
  {
  }

  // An edge that is called has no length any more.
  lemma TakeSettled(q: Queue)
    requires Settled(q) && q.edges != []
    ensures Settled(AfterTake(q))
  {
    assert q.edges == [q.edges[0]] + q.edges[1..];
  }

  // Vectors on the worklist.
  function Total(q: Queue, edges: seq<Edge>): nat {
    if edges == [] then 0 else Total(q, edges[..|edges| - 1]) + Read8(Wanted(q, edges[|edges| - 1]))
  }

  lemma {:induction false} TotalPositive(q: Queue, edges: seq<Edge>)
    ensures Total(q, edges) >= |edges|
  {
    if edges != [] {
      TotalPositive(q, edges[..|edges| - 1]);
    }
  }

  // ---- the outputs mirror the queue

  ghost predicate InGraph(outs: seq<Out>, e: Edge) {
    e.node < |outs| && e.x < |outs[e.node].len|
  }

  ghost predicate OutShape(outs: seq<Out>, i: nat)
    requires i < |outs|
  {
    && |outs[i].nextNodes| == |outs[i].len|
    && (forall x :: x in outs[i].isPending ==> x < |outs[i].len|)
    && (forall x :: x in outs[i].nextNodes ==> x < |outs|)
  }

  // Output e is marked pending exactly when it is queued, and has the length last
  // set for it, cut to 8 bits.
  ghost predicate Mirrored(outs: seq<Out>, q: Queue, e: Edge)
    requires InGraph(outs, e)
  {
    (e.x in outs[e.node].isPending <==> e in q.edges) && outs[e.node].len[e.x] == Wanted(q, e) % 256
  }

  ghost predicate Once(s: seq<Edge>) {
    forall i, j :: 0 <= i < j < |s| ==> s[i] != s[j]
  }

  ghost predicate Mirrors(outs: seq<Out>, q: Queue) {
    && (forall i :: 0 <= i < |outs| ==> OutShape(outs, i))
    && Once(q.edges) && (forall e :: e in q.edges ==> InGraph(outs, e))
    && (forall e :: InGraph(outs, e) ==> Mirrored(outs, q, e))
  }

  // m is outs with other lengths and marks.
  ghost predicate SameGraph(outs: seq<Out>, m: seq<Out>) {
    |m| == |outs| && forall i :: 0 <= i < |outs| ==> m[i].nextNodes == outs[i].nextNodes && |m[i].len| == |outs[i].len|
  }

  // Output e with length l and mark b.
  function WithOut(outs: seq<Out>, e: Edge, l: nat, b: bool): seq<Out>
    requires e.node < |outs| && e.x < |outs[e.node].len|
  {
    var o := outs[e.node];
    outs[e.node := Out(o.len[e.x := l], o.nextNodes, if b then o.isPending + {e.x} else o.isPending - {e.x})]
  }

  lemma WithOutKeeps(outs: seq<Out>, e: Edge, l: nat, b: bool, q: Queue, q': Queue)
    requires Mirrors(outs, q) && InGraph(outs, e)
    requires Once(q'.edges) && forall f :: f in q'.edges ==> f in q.edges || f == e
    requires (e in q'.edges <==> b) && l == Wanted(q', e) % 256
    requires forall f :: f != e ==> (f in q'.edges <==> f in q.edges) && Wanted(q', f) == Wanted(q, f)
    ensures Mirrors(WithOut(outs, e, l, b), q') && SameGraph(outs, WithOut(outs, e, l, b))
  {
    hide Once, Wanted;
    var m := WithOut(outs, e, l, b);
    forall i | 0 <= i < |m|
      ensures OutShape(m, i)
    {
      assert OutShape(outs, i);
    }
    forall f | InGraph(m, f)
      ensures InGraph(outs, f) && Mirrored(m, q', f)
    {
      assert Mirrored(outs, q, f);
    }
  }

  lemma SendKeeps(outs: seq<Out>, q: Queue, e: Edge, n: nat)
    requires Mirrors(outs, q) && InGraph(outs, e)
    ensures var q' := AfterSend(q, e, n);
            var b := n > 0 || e.x in outs[e.node].isPending;
            Mirrors(WithOut(outs, e, n % 256, b), q') && SameGraph(outs, WithOut(outs, e, n % 256, b))
    ensures e.x in outs[e.node].isPending <==> e in q.edges
  {
    var q' := AfterSend(q, e, n);
    var b := n > 0 || e.x in outs[e.node].isPending;
    assert Mirrored(outs, q, e);
    WithOutKeeps(outs, e, n % 256, b, q, q');
  }

  lemma TakeKeeps(outs: seq<Out>, q: Queue)
    requires Mirrors(outs, q) && q.edges != []
    ensures var e := q.edges[0];
            var q' := Queue(q.edges[1..], q.want[e := 0]);
            && InGraph(outs, e) && outs[e.node].len[e.x] == Wanted(q, e) % 256
            && Mirrors(WithOut(outs, e, 0, false), q') && SameGraph(outs, WithOut(outs, e, 0, false))
  {
    var e := q.edges[0];
    var q' := Queue(q.edges[1..], q.want[e := 0]);
    assert e in q.edges && Mirrored(outs, q, e);
    assert q.edges == [e] + q'.edges;
    WithOutKeeps(outs, e, 0, false, q, q');
  }

  // ---- the worklist

  // The call is to the node that the edge's output names as its next.
  ghost predicate LedBy(outs: seq<Out>, c: Call) {
    c.edge.node < |outs| && c.edge.x < |outs[c.edge.node].nextNodes| && c.node == outs[c.edge.node].nextNodes[c.edge.x]
  }

  lemma LedSame(outs: seq<Out>, m: seq<Out>, c: Call)
    requires GraphOf(outs) == GraphOf(m) && LedBy(outs, c)
    ensures LedBy(m, c)
  {
    assert GraphOf(outs)[c.edge.node] == GraphOf(m)[c.edge.node];
  }

  class Poller {
    // Outputs of each node, and edges in the order in which they became pending.
    var outs: seq<Out>
    var pending: seq<Edge>
    var currentNode: nat

    // The abstract queue: what is on the worklist and not yet called.
    ghost var queue: Queue

    ghost predicate PendingFrom(done: nat)
      reads this
    {
      done <= |pending| && currentNode < |outs| && Mirrors(outs, queue) && queue.edges == pending[done..]
    }

    method SetLen(x: nat, n: nat, ghost done: nat)
      requires PendingFrom(done) && x < |outs[currentNode].len|
      modifies this`outs, this`pending, this`queue
      ensures PendingFrom(done) && queue == AfterSend(old(queue), Edge(currentNode, x), n)
      ensures SameGraph(old(outs), outs) && pending[..done] == old(pending)[..done]
    {
      hide Mirrors, SameGraph;
      ghost var e := Edge(currentNode, x);
      SendKeeps(outs, queue, e, n);
      ghost var before := outs;
      outs := outs[currentNode := outs[currentNode].(len := outs[currentNode].len[x := n % 256])];
      if n > 0 {
        var was := x in outs[currentNode].isPending;
        outs := outs[currentNode := outs[currentNode].(isPending := outs[currentNode].isPending + {x})];
        if !was {
          pending := pending + [Edge(currentNode, x)];
        }
      }
      SendIs(before, outs, e, n);
      queue := AfterSend(queue, e, n);
    }

    // The node that is called sets its outputs.
    method RunNode(sends: seq<Send>, ghost done: nat)
      requires PendingFrom(done)
      requires Fitting(sends, |outs[currentNode].len|)
      modifies this`outs, this`pending, this`queue
      ensures PendingFrom(done) && queue == AfterSends(old(queue), currentNode, sends)
      ensures SameGraph(old(outs), outs) && pending[..done] == old(pending)[..done]
    {
      hide Mirrors;
      var i := 0;
      assert sends[..0] == [];
      while i < |sends|
        invariant 0 <= i <= |sends| && PendingFrom(done) && queue == AfterSends(old(queue), currentNode, sends[..i])
        invariant SameGraph(old(outs), outs) && pending[..done] == old(pending)[..done]
      {
        assert sends[..i + 1][..i] == sends[..i];
        SetLen(sends[i].x, sends[i].n, done);
        i := i + 1;
      }
      assert sends[..i] == sends;
    }

    // Lengths are read from the outputs of the current node, whose edges these are.
    method TotalVectors() returns (nVec: nat)
      requires PendingFrom(0) && forall i :: 0 <= i < |pending| ==> pending[i].node == currentNode
      ensures nVec == Total(queue, queue.edges) && (nVec == 0 <==> pending == [])
    {
      nVec := 0;
      var i := 0;
      while i < |pending|
        invariant 0 <= i <= |pending| && nVec == Total(queue, pending[..i])
      {
        var e := pending[i];
        assert e in queue.edges && Mirrored(outs, queue, e);
        assert pending[..i + 1][..i] == pending[..i];
        nVec := nVec + NextVectors(currentNode, e.x);
        i := i + 1;
      }
      assert pending[..i] == pending == queue.edges;
      TotalPositive(queue, queue.edges);
    }

    function NextVectors(node: nat, x: nat): nat
      requires node < |outs| && x < |outs[node].len|
      reads this`outs
    {
      if outs[node].len[x] == 0 then MAX_VECTOR_LEN else outs[node].len[x]
    }

    // Takes the next edge off the worklist and resets its output.
    method TakeNext(done: nat) returns (e: Edge, nextN: nat)
      requires PendingFrom(done) && done < |pending|
      modifies this`outs, this`queue
      ensures PendingFrom(done + 1) && e == old(queue).edges[0] == pending[done]
      ensures nextN == Read8(Wanted(old(queue), e)) && queue == AfterTake(old(queue))
      ensures SameGraph(old(outs), outs)
      ensures e.node < |outs| && e.x < |outs[e.node].nextNodes| && outs[e.node].nextNodes[e.x] < |outs|
    {
      TakeKeeps(outs, queue);
      ghost var before, q := outs, queue;
      e := pending[done];
      assert OutShape(outs, e.node) && outs[e.node].nextNodes[e.x] in outs[e.node].nextNodes;
      hide Mirrors;
      nextN := NextVectors(e.node, e.x);
      outs := outs[e.node := outs[e.node].(len := outs[e.node].len[e.x := 0])];
      outs := outs[e.node := outs[e.node].(isPending := outs[e.node].isPending - {e.x})];
      assert outs == WithOut(before, e, 0, false);
      queue := AfterTake(queue);
    }

    // Calls all that is pending, and what becomes pending meanwhile.  Every edge is
    // called once each time it became pending, in that order, with the length last
    // set; in the end none is pending, and if only pending outputs had a length
    // before, none has one.
    method CallPending(act: Behaviour, quiet: nat) returns (nVec: nat, log: seq<Call>)
      requires PendingFrom(0) && Sensible(act, quiet, GraphOf(outs))
      requires forall i :: 0 <= i < |pending| ==> pending[i].node == currentNode
      modifies this
      ensures nVec == Total(old(queue), old(queue).edges)
      ensures log == Calls(old(queue), 0, quiet, act, GraphOf(old(outs)))
      ensures EdgesOf(log) == old(pending) + Arrivals(old(queue), 0, quiet, act, GraphOf(old(outs)))
      ensures forall i :: 0 <= i < |log| ==> LedBy(old(outs), log[i])
      ensures PendingFrom(0) && pending == [] && forall i :: 0 <= i < |outs| ==> outs[i].isPending == {}
      ensures GraphOf(outs) == GraphOf(old(outs))
      ensures Settled(old(queue)) ==> Settled(queue) && forall e :: InGraph(outs, e) ==> outs[e.node].len[e.x] == 0
    {
      hide Mirrors, SameGraph, Sensible, AfterSends, AfterTake, Behind, Calls, Wanted, EdgesOf, Arrivals, LedBy, Settled;
      ghost var q0, graph := queue, GraphOf(outs);
      SensibleQuiet(act, quiet, graph);
      CallsNone(quiet, act, graph);
      AllInOrder(q0, 0, quiet, act, graph);
      nVec := TotalVectors();
      log := [];
      if nVec == 0 {
        NonePending(outs, queue);
        NoLengths(outs, queue);
        return;
      }
      var pendingIndex := 0;
      while pendingIndex < |pending|
        invariant pendingIndex <= |pending| && PendingFrom(pendingIndex) && GraphOf(outs) == graph
        invariant Calls(q0, 0, quiet, act, graph) == log + Calls(queue, pendingIndex, quiet, act, graph)
        invariant forall i :: 0 <= i < |log| ==> LedBy(old(outs), log[i])
        invariant Settled(old(queue)) ==> Settled(queue)
        decreases if pendingIndex < quiet then quiet - pendingIndex else 0, |pending| - pendingIndex
      {
        CallsStep(queue, pendingIndex, quiet, act, graph);
        ghost var outs0 := outs;
        var c := CallNext(pendingIndex, act, quiet);
        LedSame(outs0, old(outs), c);
        log := log + [c];
        pendingIndex := pendingIndex + 1;
      }
      NonePending(outs, queue);
      NoLengths(outs, queue);
      pending := [];
    }

    // One round of the worklist.
    method CallNext(pendingIndex: nat, act: Behaviour, ghost quiet: nat) returns (c: Call)
      requires PendingFrom(pendingIndex) && pendingIndex < |pending| && Sensible(act, quiet, GraphOf(outs))
      modifies this
      ensures PendingFrom(pendingIndex + 1) && GraphOf(outs) == GraphOf(old(outs))
      ensures c == Call(old(queue).edges[0], Behind(GraphOf(outs), c.edge), Read8(Wanted(old(queue), old(queue).edges[0])))
      ensures LedBy(old(outs), c)
      ensures var n := c.node;
              queue == AfterSends(AfterTake(old(queue)), n, act(pendingIndex, n))
      ensures pendingIndex >= quiet ==> |pending| == |old(pending)|
      ensures Settled(old(queue)) ==> Settled(queue)
    {
      hide Mirrors, AfterTake, Settled;
      ghost var q, graph := queue, GraphOf(outs);
      var e, nextN := TakeNext(pendingIndex);
      GraphSame(old(outs), outs);
      currentNode := outs[e.node].nextNodes[e.x];
      c := Call(e, currentNode, nextN);
      var sends := act(pendingIndex, currentNode);
      ghost var outs1 := outs;
      SensibleSends(outs, queue, act, quiet, pendingIndex, currentNode);
      RunNode(sends, pendingIndex + 1);
      if Settled(q) {
        TakeSettled(q);
        SendsSettled(AfterTake(q), currentNode, sends);
      }
      GraphSame(outs1, outs);
    }
  }

  lemma GraphSame(outs: seq<Out>, m: seq<Out>)
    requires SameGraph(outs, m)
    ensures GraphOf(outs) == GraphOf(m)
  {
  }

  lemma SensibleSends(outs: seq<Out>, q: Queue, act: Behaviour, quiet: nat, k: nat, n: nat)
    requires Mirrors(outs, q) && n < |outs| && Sensible(act, quiet, GraphOf(outs))
    ensures Fitting(act(k, n), |outs[n].len|) && (k >= quiet ==> act(k, n) == [])
  {
    assert OutShape(outs, n);
  }

  lemma CallsNone(quiet: nat, act: Behaviour, graph: seq<seq<nat>>)
    requires forall k: nat, n: nat :: k >= quiet ==> act(k, n) == []
    ensures forall q: Queue, k: nat :: q.edges == [] ==> Calls(q, k, quiet, act, graph) == []
  {
  }

  lemma CallsStep(q: Queue, k: nat, quiet: nat, act: Behaviour, graph: seq<seq<nat>>)
    requires forall i: nat, n: nat :: i >= quiet ==> act(i, n) == []
    requires q.edges != []
    ensures var n := Behind(graph, q.edges[0]);
            Calls(q, k, quiet, act, graph) ==
              [Call(q.edges[0], n, Read8(Wanted(q, q.edges[0])))] + Calls(AfterSends(AfterTake(q), n, act(k, n)), k + 1, quiet, act, graph)
  {
  }

  // Where each output leads.
  function GraphOf(outs: seq<Out>): (g: seq<seq<nat>>)
    ensures |g| == |outs| && forall i :: 0 <= i < |outs| ==> g[i] == outs[i].nextNodes
  {
    seq(|outs|, i requires 0 <= i < |outs| => outs[i].nextNodes)
  }

  lemma NonePending(outs: seq<Out>, q: Queue)
    requires Mirrors(outs, q) && q.edges == []
    ensures forall i :: 0 <= i < |outs| ==> outs[i].isPending == {}
  {
    forall i: nat | i < |outs|
      ensures outs[i].isPending == {}
    {
      assert OutShape(outs, i);
      assert forall x :: x in outs[i].isPending ==> Mirrored(outs, q, Edge(i, x));
    }
  }

  lemma NoLengths(outs: seq<Out>, q: Queue)
    requires Mirrors(outs, q) && q.edges == []
    ensures Settled(q) ==> forall e :: InGraph(outs, e) ==> outs[e.node].len[e.x] == 0
  {
    if Settled(q) {
      forall e | InGraph(outs, e)
        ensures outs[e.node].len[e.x] == 0
      {
        assert Mirrored(outs, q, e);
      }
    }
  }

  lemma SensibleQuiet(act: Behaviour, quiet: nat, graph: seq<seq<nat>>)
    requires Sensible(act, quiet, graph)
    ensures forall k: nat, n: nat :: k >= quiet ==> act(k, n) == []
  {
  }

  lemma SendIs(outs: seq<Out>, m: seq<Out>, e: Edge, n: nat)
    requires e.node < |outs| && e.x < |outs[e.node].len|
    requires m == outs[e.node := Out(outs[e.node].len[e.x := n % 256], outs[e.node].nextNodes,
                                     if n > 0 then outs[e.node].isPending + {e.x} else outs[e.node].isPending)]
    ensures m == WithOut(outs, e, n % 256, n > 0 || e.x in outs[e.node].isPending)
  {
    var s := outs[e.node].isPending;
    assert e.x in s ==> s + {e.x} == s;
    assert e.x !in s ==> s - {e.x} == s;
  }
}

// The hand-over between the main loop and the goroutines of its pollers, as a
// state machine: every atomic action of the main loop, of a poller's goroutine,
// and of anyone who calls Resume or Activate is one step.
module LoopHandshake {

  // Where a poller's goroutine is.  Parked and SuspendWait wait for the main
  // loop; SuspendSend and SuspendClear are inside Suspend, before and after.
  datatype Pc = Parked | Running | SuspendSend | SuspendWait | SuspendClear

  // A poller: its flags, the tokens in its two channels, its goroutine.
  datatype Node = Node(active: bool, suspended: bool, resumed: bool, polling: bool, toLoop: nat, fromLoop: nat, pc: Pc)

  // Where the main loop is in a round; Scan starts pollers, Collect waits for them.
  datatype MainPc = Scan(i: nat) | Check(i: nat) | Start(i: nat) | Send(i: nat) | Collect(i: nat) | Done(i: nat)

  datatype State = State(nodes: seq<Node>, main: MainPc)

  const CHANNEL_CAP: nat := 1

  predicate Busy(n: Node) {
    n.pc == Running || n.pc == SuspendSend || n.pc == SuspendClear
  }

  predicate Waiting(n: Node) {
    n.pc == Parked || n.pc == SuspendWait
  }

  // ---- steps of the main loop

  ghost predicate MainStep(s: State, s': State) {
    var i := s.main.i;
    match s.main
    case Scan(_) =>
      s' == s.(main := if i >= |s.nodes| then Collect(0) else if s.nodes[i].active then Check(i) else Scan(i + 1))
    case Check(_) =>
      i < |s.nodes| && s' == s.(main := if s.nodes[i].suspended then Scan(i + 1) else Start(i))
    case Start(_) =>
      i < |s.nodes| && s' == State(s.nodes[i := s.nodes[i].(polling := true)], Send(i))
    case Send(_) =>
      i < |s.nodes| && s.nodes[i].fromLoop < CHANNEL_CAP
      && s' == State(s.nodes[i := s.nodes[i].(fromLoop := s.nodes[i].fromLoop + 1)], Scan(i + 1))
    case Collect(_) =>
      if i >= |s.nodes| then s' == s.(main := Scan(0))
      else if !s.nodes[i].polling then s' == s.(main := Collect(i + 1))
      else s.nodes[i].toLoop > 0
           && s' == State(s.nodes[i := s.nodes[i].(toLoop := s.nodes[i].toLoop - 1)], Done(i))
    case Done(_) =>
      i < |s.nodes| && s' == State(s.nodes[i := s.nodes[i].(polling := false)], Collect(i + 1))
  }

  // ---- steps of a poller's goroutine

  // What the goroutine of n may do next.
  ghost predicate PollerAct(n: Node, n': Node) {
    match n.pc
    case Parked => n.fromLoop > 0 && n' == n.(fromLoop := n.fromLoop - 1, pc := Running)
    case Running =>
      || (n.toLoop < CHANNEL_CAP && n' == n.(toLoop := n.toLoop + 1, pc := Parked))
      || (n.resumed && n' == n.(pc := SuspendClear))
      || (!n.resumed && n' == n.(suspended := true, resumed := false, pc := SuspendSend))
    case SuspendSend => n.toLoop < CHANNEL_CAP && n' == n.(toLoop := n.toLoop + 1, pc := SuspendWait)
    case SuspendWait => n.fromLoop > 0 && n' == n.(fromLoop := n.fromLoop - 1, pc := SuspendClear)
    case SuspendClear => n' == n.(suspended := false, resumed := false, pc := Running)
  }

  // ---- steps of others

  ghost predicate ResumeAct(n: Node, n': Node) {
    n' == if n.active then n.(active := true, resumed := true, suspended := false) else n
  }

  ghost predicate ActivateAct(n: Node, n': Node, enable: bool) {
    n' == n.(active := enable)
  }

  ghost predicate NodeAct(n: Node, n': Node) {
    PollerAct(n, n') || ResumeAct(n, n') || exists enable :: ActivateAct(n, n', enable)
  }

  ghost predicate NodeStep(s: State, s': State, j: nat) {
    j < |s.nodes| && |s'.nodes| == |s.nodes| && s'.main == s.main
    && s'.nodes == s.nodes[j := s'.nodes[j]] && NodeAct(s.nodes[j], s'.nodes[j])
  }

  ghost predicate Next(s: State, s': State) {
    MainStep(s, s') || exists j: nat :: NodeStep(s, s', j)
  }

  ghost predicate Init(s: State) {
    s.main == Scan(0)
    && forall j :: 0 <= j < |s.nodes| ==>
         !s.nodes[j].suspended && !s.nodes[j].resumed && !s.nodes[j].polling
         && s.nodes[j].toLoop == 0 && s.nodes[j].fromLoop == 0 && s.nodes[j].pc == Parked
  }

  ghost predicate Run(t: seq<State>) {
    |t| > 0 && Init(t[0]) && forall k :: 0 <= k < |t| - 1 ==> Next(t[k], t[k + 1])
  }

  // ---- what every step keeps

  // How often control over the poller is out of the hands of the main loop.
  function Out(n: Node): nat {
    n.fromLoop + n.toLoop + if Busy(n) then 1 else 0
  }

  // The main loop is between marking node j and its token, either way.
  predicate Handing(m: MainPc, j: nat) {
    m == Send(j) || m == Done(j)
  }

  // Flags of a poller alone.
  ghost predicate FlagsOk(n: Node) {
    && !(n.suspended && n.resumed)
    && (n.suspended ==> n.pc == SuspendSend || n.pc == SuspendWait)
    && (n.pc == SuspendSend || n.pc == SuspendWait ==> n.suspended || n.resumed)
    && (n.fromLoop > 0 ==> !n.suspended)
  }

  // Polling means that exactly one of these holds: its token is on the way, its
  // goroutine runs, or its token is on the way back.
  ghost predicate NodeOk(m: MainPc, j: nat, n: Node) {
    && FlagsOk(n)
    && Out(n) == (if n.polling && !Handing(m, j) then 1 else 0)
    && (Handing(m, j) ==> n.polling)
    && (m == Start(j) || m == Send(j) ==> !n.suspended)
    && (n.polling ==> NotYet(m, j))
  }

  // Node j can be polling now: already started, or not collected yet.
  predicate NotYet(m: MainPc, j: nat) {
    match m
    case Scan(i) => j < i
    case Check(i) => j < i
    case Start(i) => j < i
    case Send(i) => j <= i
    case Collect(i) => j >= i
    case Done(i) => j >= i
  }

  ghost predicate Inv(s: State) {
    && (forall j :: 0 <= j < |s.nodes| ==> NodeOk(s.main, j, s.nodes[j]))
    && (s.main.Check? || s.main.Start? || s.main.Send? || s.main.Done? ==> s.main.i < |s.nodes|)
    && s.main.i <= |s.nodes|
  }

  lemma InitOk(s: State)
    requires Init(s)
    ensures Inv(s)
  {
  }

  lemma MainKeeps(s: State, s': State)
    requires Inv(s) && MainStep(s, s')
    ensures Inv(s')
  {
    var i := s.main.i;
    assert i < |s.nodes| ==> NodeOk(s.main, i, s.nodes[i]);
    forall j | 0 <= j < |s'.nodes|
      ensures NodeOk(s'.main, j, s'.nodes[j])
    {
      assert NodeOk(s.main, j, s.nodes[j]);
    }
  }

  lemma ActKeeps(m: MainPc, j: nat, n: Node, n': Node)
    requires NodeOk(m, j, n) && NodeAct(n, n')
    ensures NodeOk(m, j, n')
  {
  }

  lemma NextKeeps(s: State, s': State)
    requires Inv(s) && Next(s, s')
    ensures Inv(s')
  {
    if MainStep(s, s') {
      MainKeeps(s, s');
    } else {
      var j: nat :| NodeStep(s, s', j);
      ActKeeps(s.main, j, s.nodes[j], s'.nodes[j]);
    }
  }

  // Over every run.
  lemma {:induction false} RunIsSafe(t: seq<State>, k: nat)
    requires Run(t) && k < |t|
    ensures Inv(t[k])
  {
    hide Init, Next, Inv;
    if k == 0 {
      InitOk(t[0]);
    } else {
      RunIsSafe(t, k - 1);
      assert Next(t[k - 1], t[k - 1 + 1]);
      NextKeeps(t[k - 1], t[k]);
    }
  }

  // ---- what that means

  // No send ever blocks.
  lemma SendsNeverBlock(s: State, j: nat)
    requires Inv(s) && j < |s.nodes|
    ensures s.main == Send(j) ==> s.nodes[j].fromLoop < CHANNEL_CAP
    ensures s.nodes[j].pc == Running || s.nodes[j].pc == SuspendSend ==> s.nodes[j].toLoop < CHANNEL_CAP
  {
    assert NodeOk(s.main, j, s.nodes[j]);
  }

  // Only a goroutine that waits is started, and one inside Suspend only after a
  // Resume.
  lemma StartsOnlyWaiting(s: State, j: nat)
    requires Inv(s) && s.main == Send(j) && j < |s.nodes|
    ensures Waiting(s.nodes[j]) && !s.nodes[j].suspended && (s.nodes[j].pc == SuspendWait ==> s.nodes[j].resumed)
  {
    assert NodeOk(s.main, j, s.nodes[j]);
  }

  // A suspended goroutine stays where it is until someone resumes it.
  lemma SuspendedStays(s: State, s': State, j: nat)
    requires Inv(s) && Next(s, s') && j < |s.nodes| && s.nodes[j].suspended && s.nodes[j].pc == SuspendWait
    ensures |s'.nodes| == |s.nodes| && s'.nodes[j].pc == SuspendWait
    ensures s'.nodes[j].suspended || (s.nodes[j].active && s'.nodes[j].resumed)
  {
    assert NodeOk(s.main, j, s.nodes[j]);
    if !MainStep(s, s') {
      var k: nat :| NodeStep(s, s', k);
    }
  }

  // The main loop never waits for nothing: either it can take a step, or the
  // goroutine it waits for can.
  lemma NoDeadlock(s: State)
    requires Inv(s)
    ensures (exists s' :: MainStep(s, s')) || (s.main.Collect? && s.main.i < |s.nodes| && exists n :: PollerAct(s.nodes[s.main.i], n))
  {
    var i := s.main.i;
    assert i < |s.nodes| ==> NodeOk(s.main, i, s.nodes[i]);
    match s.main
    case Scan(_) =>
      assert MainStep(s, s.(main := if i >= |s.nodes| then Collect(0) else if s.nodes[i].active then Check(i) else Scan(i + 1)));
    case Check(_) =>
      assert MainStep(s, s.(main := if s.nodes[i].suspended then Scan(i + 1) else Start(i)));
    case Start(_) =>
      assert MainStep(s, State(s.nodes[i := s.nodes[i].(polling := true)], Send(i)));
    case Send(_) =>
      assert MainStep(s, State(s.nodes[i := s.nodes[i].(fromLoop := s.nodes[i].fromLoop + 1)], Scan(i + 1)));
    case Done(_) =>
      assert MainStep(s, State(s.nodes[i := s.nodes[i].(polling := false)], Collect(i + 1)));
    case Collect(_) =>
      if i >= |s.nodes| {
        assert MainStep(s, s.(main := Scan(0)));
      } else if !s.nodes[i].polling {
        assert MainStep(s, s.(main := Collect(i + 1)));
      } else if s.nodes[i].toLoop > 0 {
        assert MainStep(s, State(s.nodes[i := s.nodes[i].(toLoop := s.nodes[i].toLoop - 1)], Done(i)));
      } else {
        PollerMoves(s.nodes[i]);
      }
  }

  lemma PollerMoves(n: Node)
    requires FlagsOk(n) && Out(n) == 1 && n.toLoop == 0
    ensures exists n' :: PollerAct(n, n')
  {
    match n.pc
    case Parked => assert PollerAct(n, n.(fromLoop := n.fromLoop - 1, pc := Running));
    case Running => assert PollerAct(n, n.(toLoop := n.toLoop + 1, pc := Parked));
    case SuspendSend => assert PollerAct(n, n.(toLoop := n.toLoop + 1, pc := SuspendWait));
    case SuspendWait => assert PollerAct(n, n.(fromLoop := n.fromLoop - 1, pc := SuspendClear));
    case SuspendClear => assert PollerAct(n, n.(suspended := false, resumed := false, pc := Running));
  }

  // At the end of a round no goroutine runs: all that were started are back.
  lemma RoundEndsQuiet(s: State, j: nat)
    requires Inv(s) && s.main == Scan(0) && j < |s.nodes|
    ensures Waiting(s.nodes[j]) && s.nodes[j].toLoop == 0 && s.nodes[j].fromLoop == 0 && !s.nodes[j].polling
  {
    assert NodeOk(s.main, j, s.nodes[j]);
  }

  // ---- and that what may run does run

  // Node j waits, may be started, and the main loop has not come past it yet.
  ghost predicate Pending(s: State, j: nat) {
    j < |s.nodes| && s.nodes[j].active && !s.nodes[j].suspended && Waiting(s.nodes[j])
    && !s.main.Collect? && !s.main.Done? && s.main.i <= j
  }

  // Its token is on the way to it, or it is on its way out of Suspend.
  ghost predicate Called(s: State, j: nat) {
    j < |s.nodes| && ((Waiting(s.nodes[j]) && s.nodes[j].fromLoop > 0) || s.nodes[j].pc == SuspendClear)
  }

  // It waits, or is about to, and may be started: it was never suspended, or it was
  // resumed.
  ghost predicate Ready(s: State, j: nat) {
    j < |s.nodes| && s.nodes[j].pc in {Parked, SuspendSend, SuspendWait} && !s.nodes[j].suspended
  }

  ghost predicate Runs(s: State, j: nat) {
    j < |s.nodes| && s.nodes[j].pc == Running
  }

  lemma PendingStep(s: State, s': State, j: nat)
    requires Inv(s) && Next(s, s') && Pending(s, j) && s'.nodes[j].active
    ensures Pending(s', j) || Called(s', j) || Runs(s', j)
  {
    assert NodeOk(s.main, j, s.nodes[j]);
    if !MainStep(s, s') {
      var k: nat :| NodeStep(s, s', k);
    }
  }

  lemma CalledStep(s: State, s': State, j: nat)
    requires Inv(s) && Next(s, s') && Called(s, j)
    ensures Called(s', j) || Runs(s', j)
  {
    assert NodeOk(s.main, j, s.nodes[j]);
    if !MainStep(s, s') {
      var k: nat :| NodeStep(s, s', k);
    }
  }

  lemma ReadyStep(s: State, s': State, j: nat)
    requires Inv(s) && Next(s, s') && Ready(s, j)
    ensures Ready(s', j) || Called(s', j) || Runs(s', j)
  {
    assert NodeOk(s.main, j, s.nodes[j]);
    if !MainStep(s, s') {
      var k: nat :| NodeStep(s, s', k);
    }
  }

  // Between rounds nobody is on the way.
  lemma QuietNotCalled(s: State, j: nat)
    requires Inv(s) && s.main == Scan(0)
    ensures !Called(s, j)
  {
    if j < |s.nodes| {
      RoundEndsQuiet(s, j);
    }
  }

  // A poller on the way at state a runs before the next round starts at state b.
  lemma {:induction false} CalledRuns(t: seq<State>, j: nat, a: nat, b: nat)
    requires Run(t) && a <= b < |t| && Called(t[a], j) && t[b].main == Scan(0)
    ensures exists x :: a < x <= b && Runs(t[x], j)
    decreases b - a
  {
    hide Init, Next, Inv, Called, Runs;
    RunIsSafe(t, a);
    RunIsSafe(t, b);
    QuietNotCalled(t[b], j);
    assert Next(t[a], t[a + 1]);
    CalledStep(t[a], t[a + 1], j);
    if !Runs(t[a + 1], j) {
      CalledRuns(t, j, a + 1, b);
    }
  }

  // In every round from state a to state b, every poller that is active and not
  // suspended runs; state l is one in which the main loop collects.
  lemma {:induction false} EveryRoundRuns(t: seq<State>, j: nat, a: nat, l: nat, b: nat)
    requires Run(t) && a <= l <= b < |t| && Pending(t[a], j) && t[l].main.Collect? && t[b].main == Scan(0)
    requires forall k :: a <= k <= l ==> j < |t[k].nodes| && t[k].nodes[j].active
    ensures exists x :: a < x <= b && Runs(t[x], j)
    decreases l - a
  {
    hide Init, Next, Inv, Called, Runs;
    RunIsSafe(t, a);
    assert a != l;
    assert Next(t[a], t[a + 1]);
    PendingStep(t[a], t[a + 1], j);
    if Runs(t[a + 1], j) {
    } else if Called(t[a + 1], j) {
      CalledRuns(t, j, a + 1, b);
    } else {
      EveryRoundRuns(t, j, a + 1, l, b);
    }
  }

  // A poller that was resumed waits for the next round only: from state k on, where
  // Resume is called on a poller inside Suspend, it runs before the end of the
  // round from a to b, if it stays active until the main loop collects at l.
  lemma {:induction false} ResumeRuns(t: seq<State>, j: nat, k: nat, a: nat, l: nat, b: nat)
    requires Run(t) && k < a <= l <= b < |t|
    requires j < |t[k].nodes| && j < |t[k + 1].nodes| && t[k].nodes[j].active && t[k].nodes[j].pc in {SuspendSend, SuspendWait}
    requires ResumeAct(t[k].nodes[j], t[k + 1].nodes[j])
    requires t[a].main == Scan(0) && t[l].main.Collect? && t[b].main == Scan(0)
    requires forall i :: a <= i <= l ==> j < |t[i].nodes| && t[i].nodes[j].active
    ensures exists x :: k < x <= b && Runs(t[x], j)
  {
    ReadyRuns(t, j, k + 1, a, l, b);
  }

  // So does one that was switched on while it was not suspended.
  lemma {:induction false} ActivateRuns(t: seq<State>, j: nat, k: nat, a: nat, l: nat, b: nat)
    requires Run(t) && k < a <= l <= b < |t| && j < |t[k].nodes| && j < |t[k + 1].nodes| && Ready(t[k], j)
    requires ActivateAct(t[k].nodes[j], t[k + 1].nodes[j], true)
    requires t[a].main == Scan(0) && t[l].main.Collect? && t[b].main == Scan(0)
    requires forall i :: k + 1 < i <= l ==> j < |t[i].nodes| && (t[k + 1].nodes[j].active ==> t[i].nodes[j].active)
    ensures exists x :: k < x <= b && Runs(t[x], j)
  {
    ReadyRuns(t, j, k + 1, a, l, b);
  }

  lemma {:induction false} ReadyRuns(t: seq<State>, j: nat, k: nat, a: nat, l: nat, b: nat)
    requires Run(t) && k <= a <= l <= b < |t| && Ready(t[k], j)
    requires t[a].main == Scan(0) && t[l].main.Collect? && t[b].main == Scan(0)
    requires forall i :: a <= i <= l ==> j < |t[i].nodes| && t[i].nodes[j].active
    ensures exists x :: k < x <= b && Runs(t[x], j)
    decreases a - k
  {
    hide Init, Next, Inv, Called, Runs;
    if k == a {
      RunIsSafe(t, a);
      RoundEndsQuiet(t[a], j);
      EveryRoundRuns(t, j, a, l, b);
    } else {
      RunIsSafe(t, k);
      assert Next(t[k], t[k + 1]);
      ReadyStep(t[k], t[k + 1], j);
      if Runs(t[k + 1], j) {
      } else if Called(t[k + 1], j) {
        CalledRuns(t, j, k + 1, b);
      } else {
        ReadyRuns(t, j, k + 1, a, l, b);
      }
    }
  }

  // At the next check of such a poller the main loop starts it.
  lemma ReadyStarts(s: State, s': State)
    requires s.main.Check? && Ready(s, s.main.i) && MainStep(s, s')
    ensures s'.main == Start(s.main.i)
  {
  }

  // A Resume that comes before Suspend is not lost: Suspend then returns without
  // giving up control.  Without one, Suspend takes effect.
  lemma ResumeNotLost(n: Node, n': Node)
    requires n.pc == Running && n.active && ResumeAct(n, n')
    ensures forall x :: PollerAct(n', x) ==> !x.suspended && x.pc != SuspendSend
    ensures exists x :: PollerAct(n', x) && x.pc == SuspendClear && x.toLoop == n.toLoop
    ensures !n.resumed ==> exists x :: PollerAct(n, x) && x.suspended && x.pc == SuspendSend
  {
    assert PollerAct(n', n'.(pc := SuspendClear));
    assert PollerAct(n, n.(suspended := true, resumed := false, pc := SuspendSend)) || n.resumed;
  }

  // One Resume ends one Suspend: the next Suspend takes effect again.
  lemma SuspendAgain(n: Node, n': Node)
    requires n.pc == SuspendClear && PollerAct(n, n')
    ensures n'.pc == Running && exists x :: PollerAct(n', x) && x.suspended && x.pc == SuspendSend
  {
    assert PollerAct(n', n'.(suspended := true, resumed := false, pc := SuspendSend));
  }

  // ---- and nothing else does

  // Node j rests, and the main loop is not about to call it.
  ghost predicate Resting(s: State, j: nat) {
    j < |s.nodes| && Waiting(s.nodes[j]) && s.nodes[j].fromLoop == 0
    && s.main != Check(j) && s.main != Start(j) && s.main != Send(j)
  }

  lemma RestingStep(s: State, s': State, j: nat)
    requires Inv(s) && Next(s, s') && Resting(s, j) && !s.nodes[j].active
    ensures Resting(s', j)
  {
    assert NodeOk(s.main, j, s.nodes[j]);
    if !MainStep(s, s') {
      var k: nat :| NodeStep(s, s', k);
    }
  }

  // Over any number of rounds, a poller that is not active does not run.
  lemma {:induction false} InactiveRests(t: seq<State>, j: nat, a: nat, b: nat)
    requires Run(t) && a <= b < |t| && t[a].main == Scan(0) && j < |t[a].nodes|
    requires forall k :: a <= k < b ==> j < |t[k].nodes| && !t[k].nodes[j].active
    ensures Resting(t[b], j) && !Runs(t[b], j)
    decreases b - a
  {
    hide Init, Next, Inv;
    if a == b {
      RunIsSafe(t, a);
      RoundEndsQuiet(t[a], j);
    } else {
      InactiveRests(t, j, a, b - 1);
      RunIsSafe(t, b - 1);
      assert Next(t[b - 1], t[b - 1 + 1]);
      RestingStep(t[b - 1], t[b], j);
    }
  }
}

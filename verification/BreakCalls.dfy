// What Wait, Run and Destroy do to the gate, counted over a run.
module BreakCalls {
  import opened Lists
  import opened BreakSystem

  // ---- who did what between two states, by the program counters alone ----

  predicate At2(s: State, n: State, t: nat) {
    t < |s.pc| && t < |n.pc| && s.pc[t].At?
  }

  predicate Passes(s: State, n: State, t: nat) {
    At2(s, n, t) && s.pc[t] == At(WaitGate) && n.pc[t] == At(LeaveSelf)
  }

  predicate Opens(s: State, n: State, t: nat) {
    At2(s, n, t) && s.pc[t] == At(RunPost) && n.pc[t] == Idle
  }

  predicate Posts(s: State, n: State, t: nat) {
    At2(s, n, t) && s.pc[t].phase.DestroyLoop? && n.pc[t] == At(DestroyLoop(s.pc[t].phase.posted + 1))
  }

  function Passing(s: State, n: State): set<nat> {
    set t | 0 <= t < |s.pc| && Passes(s, n, t)
  }

  function Opening(s: State, n: State): set<nat> {
    set t | 0 <= t < |s.pc| && Opens(s, n, t)
  }

  function Posting(s: State, n: State): set<nat> {
    set t | 0 <= t < |s.pc| && Posts(s, n, t)
  }

  // The passes, returned Run calls and posts of Destroy in the first k steps.
  function Passed(run: seq<State>, k: nat): nat
    requires k < |run|
  {
    if k == 0 then 0 else Passed(run, k - 1) + |Passing(run[k - 1], run[k])|
  }

  function Opened(run: seq<State>, k: nat): nat
    requires k < |run|
  {
    if k == 0 then 0 else Opened(run, k - 1) + |Opening(run[k - 1], run[k])|
  }

  function Posted(run: seq<State>, k: nat): nat
    requires k < |run|
  {
    if k == 0 then 0 else Posted(run, k - 1) + |Posting(run[k - 1], run[k])|
  }

  lemma OneOrNone(a: set<nat>, t: nat)
    requires forall u :: u in a ==> u == t
    ensures |a| == Unit(t in a)
  {
    if t in a {
      assert a == {t};
    } else {
      assert a == {};
    }
  }

  lemma GateStep(s: State, n: State, t: nat)
    requires Moves(s, n, t) && t < |s.pc|
    ensures |n.pc| == |s.pc| && forall u :: 0 <= u < |s.pc| && u != t ==> n.pc[u] == s.pc[u]
    ensures n.gate + Unit(Passes(s, n, t)) == s.gate + Unit(Opens(s, n, t)) + Unit(Posts(s, n, t))
  {
    hide RemoveFirst;
  }

  lemma StepCounts(s: State, n: State, t: nat)
    requires Moves(s, n, t) && t < |s.pc|
    ensures n.gate + |Passing(s, n)| == s.gate + |Opening(s, n)| + |Posting(s, n)|
  {
    GateStep(s, n, t);
    hide Moves;
    OneOrNone(Passing(s, n), t);
    OneOrNone(Opening(s, n), t);
    OneOrNone(Posting(s, n), t);
  }

  lemma MoverIn(s: State, n: State, t: nat)
    requires Moves(s, n, t)
    ensures t < |s.pc|
  {
  }

  // In every run, what is left at the gate and what has passed it is what Run and Destroy have put there.
  lemma {:induction false} GateConserved(run: seq<State>, k: nat)
    requires Run(run) && k < |run|
    ensures run[k].gate + Passed(run, k) == Opened(run, k) + Posted(run, k)
  {
    hide Moves, Passing, Opening, Posting;
    if k > 0 {
      GateConserved(run, k - 1);
      var t := RunStep(run, k - 1);
      MoverIn(run[k - 1], run[k], t);
      StepCounts(run[k - 1], run[k], t);
    }
  }

  // A Run that has just returned lets any waiter at the gate go on.
  lemma RunOpens(run: seq<State>, k: nat, t: nat, u: nat)
    requires Run(run) && k + 1 < |run| && t < |run[k].pc| && u < |run[k + 1].pc|
    requires run[k].pc[t] == At(RunPost) && run[k + 1].pc[t] == Idle && run[k + 1].pc[u] == At(WaitGate)
    ensures run[k + 1].gate == run[k].gate + 1 && Enabled(run[k + 1], u)
  {
    var v := RunStep(run, k);
    MoverIn(run[k], run[k + 1], v);
    GateStep(run[k], run[k + 1], v);
    hide Moves, Run;
  }

  // ---- calls ----

  predicate InWait(pc: Pc) {
    pc.At? && pc.phase in {WaitSelf, WaitCheck, WaitRefuse, WaitPost, WaitGate, LeaveSelf, LeaveErase, LeavePost}
  }

  predicate InDestroy(pc: Pc) {
    pc.At? && (pc.phase in {DestroySelf, DestroyCheck, DestroyRefuse} || pc.phase.DestroyLoop?)
  }

  predicate Through(pc: Pc) {
    pc.At? && pc.phase in {LeaveSelf, LeaveErase, LeavePost}
  }

  // One call from its first step to its return.
  ghost predicate CallFrom(run: seq<State>, i: nat, j: nat, t: nat, phase: Phase) {
    && Run(run) && i < j < |run| && t < |run[i].pc| && run[i].pc[t] == At(phase)
    && (forall k :: i <= k < j ==> t < |run[k].pc| && run[k].pc[t].At?)
    && t < |run[j].pc| && run[j].pc[t] == Idle
  }

  // A thread moves on by one place; it is refused after the destruction only, and leaves through the gate otherwise.
  lemma WaitMoves(s: State, n: State, u: nat, t: nat)
    requires Moves(s, n, u) && t < |s.pc| && InWait(s.pc[t]) && (s.pc[t] == At(WaitRefuse) ==> s.destroyed)
    ensures t < |n.pc| && (s.destroyed ==> n.destroyed)
    ensures InWait(n.pc[t]) || (n.pc[t] == Idle && (Through(s.pc[t]) || n.destroyed))
    ensures n.pc[t] == At(WaitRefuse) ==> n.destroyed
    ensures Through(n.pc[t]) && !Through(s.pc[t]) ==> Passes(s, n, t)
  {
    hide RemoveFirst;
  }

  // Some step up to k took the thread through the gate.
  ghost predicate PassedBy(run: seq<State>, i: nat, k: nat, t: nat) {
    exists l :: i <= l < k < |run| && Passes(run[l], run[l + 1], t)
  }

  lemma {:induction false} WaitAlong(run: seq<State>, i: nat, k: nat, t: nat)
    requires Run(run) && i <= k < |run| && t < |run[i].pc| && run[i].pc[t] == At(WaitSelf)
    requires forall l :: i <= l < k ==> t < |run[l].pc| && run[l].pc[t].At?
    ensures t < |run[k].pc| && (InWait(run[k].pc[t]) || run[k].pc[t] == Idle)
    ensures run[k].pc[t] == At(WaitRefuse) ==> run[k].destroyed
    ensures Through(run[k].pc[t]) ==> PassedBy(run, i, k, t)
    ensures run[k].pc[t] == Idle ==> PassedBy(run, i, k, t) || run[k].destroyed
  {
    hide Run, Moves, Passes;
    if i < k {
      WaitAlong(run, i, k - 1, t);
      var u := RunStep(run, k - 1);
      WaitMoves(run[k - 1], run[k], u, t);
      if Through(run[k].pc[t]) && !Through(run[k - 1].pc[t]) {
        assert Passes(run[k - 1], run[k - 1 + 1], t);
      }
    }
  }

  // A Wait returns after passing the gate, or after the destruction; either way the thread is not registered.
  lemma WaitReturns(run: seq<State>, i: nat, j: nat, t: nat)
    requires CallFrom(run, i, j, t, WaitSelf)
    ensures PassedBy(run, i, j, t) || run[j].destroyed
    ensures t !in run[j].waiters
  {
    hide Run, Passes;
    WaitAlong(run, i, j, t);
    RunInv(run, j);
    IdleUnlisted(run[j], t);
  }

  lemma IdleUnlisted(s: State, t: nat)
    requires Inv(s) && t < |s.pc| && s.pc[t] == Idle
    ensures t !in s.waiters
  {
    assert ThreadOk(s, t);
  }

  // A thread that waits while nothing is destroyed is registered, and goes on to the gate.
  lemma WaitRegisters(run: seq<State>, k: nat, t: nat)
    requires Run(run) && k + 1 < |run| && t < |run[k].pc| && run[k].pc[t] == At(WaitCheck)
    requires run[k + 1].pc[t] != run[k].pc[t]
    ensures t < |run[k + 1].pc|
    ensures if run[k].destroyed then run[k + 1].pc[t] == At(WaitRefuse) && run[k + 1].waiters == run[k].waiters
      else run[k + 1].pc[t] == At(WaitPost) && run[k + 1].waiters == run[k].waiters + [t]
  {
    var u := RunStep(run, k);
    MoverIn(run[k], run[k + 1], u);
    GateStep(run[k], run[k + 1], u);
    hide Run, RemoveFirst;
  }

  lemma DestroyMovesOn(s: State, n: State, u: nat, t: nat)
    requires Moves(s, n, u) && t < |s.pc| && InDestroy(s.pc[t])
    requires s.pc[t] == At(DestroyRefuse) || s.pc[t].phase.DestroyLoop? ==> s.destroyed
    ensures t < |n.pc| && (s.destroyed ==> n.destroyed)
    ensures InDestroy(n.pc[t]) || (n.pc[t] == Idle && n.destroyed)
    ensures n.pc[t].At? && (n.pc[t] == At(DestroyRefuse) || n.pc[t].phase.DestroyLoop?) ==> n.destroyed
  {
    hide RemoveFirst;
  }

  lemma {:induction false} DestroyAlong(run: seq<State>, i: nat, k: nat, t: nat)
    requires Run(run) && i <= k < |run| && t < |run[i].pc| && run[i].pc[t] == At(DestroySelf)
    requires forall l :: i <= l < k ==> t < |run[l].pc| && run[l].pc[t].At?
    ensures t < |run[k].pc| && (InDestroy(run[k].pc[t]) || (run[k].pc[t] == Idle && run[k].destroyed))
    ensures run[k].pc[t].At? && (run[k].pc[t] == At(DestroyRefuse) || run[k].pc[t].phase.DestroyLoop?) ==>
      run[k].destroyed
  {
    hide Run, Moves;
    if i < k {
      DestroyAlong(run, i, k - 1, t);
      var u := RunStep(run, k - 1);
      DestroyMovesOn(run[k - 1], run[k], u, t);
    }
  }

  // After a Destroy, the gate is destroyed, and has a unit for each thread still before it once no other is at work.
  lemma DestroyReturns(run: seq<State>, i: nat, j: nat, t: nat)
    requires CallFrom(run, i, j, t, DestroySelf)
    ensures run[j].destroyed
    ensures (forall u :: 0 <= u < |run[j].pc| ==> !Destroying(run[j], u)) ==> run[j].gate >= |Blocked(run[j])|
  {
    hide Run;
    DestroyAlong(run, i, j, t);
    RunInv(run, j);
    hide Blocked, Destroying, ThreadOk;
  }

  // ---- every call comes to its end ----

  function Rank(s: State, t: nat): int
    requires t < |s.pc|
  {
    match s.pc[t]
    case Idle => 0
    case At(phase) =>
      match phase
      case WaitRefuse | LeavePost | RunPost | DestroyRefuse => 1
      case LeaveErase => 2
      case LeaveSelf => 3
      case WaitGate => 4
      case WaitPost => 5
      case WaitCheck => 6
      case WaitSelf => 7
      case DestroyLoop(posted) => 1 + |s.waiters| - posted
      case DestroyCheck => 2 + |s.waiters|
      case DestroySelf => 3 + |s.waiters|
  }

  // Every step of a thread brings its call nearer to its return.
  lemma CallsEnd(s: State, n: State, t: nat)
    requires Inv(s) && Moves(s, n, t) && t < |s.pc| && s.pc[t].At?
    ensures t < |n.pc| && Rank(n, t) < Rank(s, t) && Rank(s, t) >= 1
  {
    assert ThreadOk(s, t);
    hide RemoveFirst, Inv, Blocked;
  }
}

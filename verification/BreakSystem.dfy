// Threads at a gate that can be opened for one, or destroyed for all, one step at a time.
module BreakSystem {
  import opened Lists

  datatype Phase =
    | WaitSelf | WaitCheck | WaitRefuse | WaitPost | WaitGate | LeaveSelf | LeaveErase | LeavePost
    | RunPost
    | DestroySelf | DestroyCheck | DestroyRefuse | DestroyLoop(posted: nat)

  datatype Pc = Idle | At(phase: Phase)

  datatype State = State(pc: seq<Pc>, destroyed: bool, gate: nat, selfLock: nat, waiters: seq<nat>)

  ghost predicate Init(s: State) {
    && (forall t :: 0 <= t < |s.pc| ==> s.pc[t] == Idle)
    && !s.destroyed && s.gate == 0 && s.selfLock == 1 && s.waiters == []
  }

  function Goto(s: State, t: nat, phase: Phase): State
    requires t < |s.pc|
  {
    s.(pc := s.pc[t := At(phase)])
  }

  function Finish(s: State, t: nat): State
    requires t < |s.pc|
  {
    s.(pc := s.pc[t := Idle])
  }

  predicate Enabled(s: State, t: nat) {
    && t < |s.pc| && s.pc[t].At?
    && match s.pc[t].phase
       case WaitSelf | LeaveSelf | DestroySelf => s.selfLock > 0
       case WaitGate => s.gate > 0
       case _ => true
  }

  function Advance(s: State, t: nat): State
    requires Enabled(s, t)
  {
    var taken, freed := s.(selfLock := s.selfLock - if s.selfLock > 0 then 1 else 0), s.(selfLock := s.selfLock + 1);
    match s.pc[t].phase
    case WaitSelf => Goto(taken, t, WaitCheck)
    case WaitCheck =>
      if s.destroyed then Goto(s, t, WaitRefuse) else Goto(s.(waiters := s.waiters + [t]), t, WaitPost)
    case WaitRefuse => Finish(freed, t)
    case WaitPost => Goto(freed, t, WaitGate)
    case WaitGate => Goto(s.(gate := s.gate - 1), t, LeaveSelf)
    case LeaveSelf => Goto(taken, t, LeaveErase)
    case LeaveErase => Goto(s.(waiters := RemoveFirst(s.waiters, t)), t, LeavePost)
    case LeavePost => Finish(freed, t)
    case RunPost => Finish(s.(gate := s.gate + 1), t)
    case DestroySelf => Goto(taken, t, DestroyCheck)
    case DestroyCheck =>
      if s.destroyed then Goto(s, t, DestroyRefuse) else Goto(s.(destroyed := true), t, DestroyLoop(0))
    case DestroyRefuse => Finish(freed, t)
    case DestroyLoop(posted) =>
      if posted < |s.waiters| then Goto(s.(gate := s.gate + 1), t, DestroyLoop(posted + 1)) else Finish(freed, t)
  }

  predicate Begins(s: State, n: State, t: nat) {
    t < |s.pc| && s.pc[t] == Idle
    && (n == Goto(s, t, WaitSelf) || n == Goto(s, t, RunPost) || n == Goto(s, t, DestroySelf))
  }

  predicate Moves(s: State, n: State, t: nat) {
    Begins(s, n, t) || (Enabled(s, t) && n == Advance(s, t))
  }

  ghost predicate Next(s: State, n: State) {
    exists t :: Moves(s, n, t)
  }

  ghost predicate Run(run: seq<State>) {
    |run| > 0 && Init(run[0]) && forall i :: 0 <= i < |run| - 1 ==> Next(run[i], run[i + 1])
  }

  // ---- who is where ----

  predicate InSelfSection(s: State, t: nat)
    requires t < |s.pc|
  {
    s.pc[t].At? &&
    match s.pc[t].phase
    case WaitCheck | WaitRefuse | WaitPost | LeaveErase | LeavePost | DestroyCheck | DestroyRefuse => true
    case DestroyLoop(_) => true
    case _ => false
  }

  // OnList, and not through the gate yet.
  predicate Before(s: State, t: nat)
    requires t < |s.pc|
  {
    s.pc[t].At? && s.pc[t].phase in {WaitPost, WaitGate}
  }

  predicate OnList(s: State, t: nat)
    requires t < |s.pc|
  {
    s.pc[t].At? && s.pc[t].phase in {WaitPost, WaitGate, LeaveSelf, LeaveErase}
  }

  predicate Destroying(s: State, t: nat)
    requires t < |s.pc|
  {
    s.pc[t].At? && s.pc[t].phase.DestroyLoop?
  }

  function SelfSection(s: State): set<nat> {
    set t | 0 <= t < |s.pc| && InSelfSection(s, t)
  }

  function Blocked(s: State): set<nat> {
    set t | 0 <= t < |s.pc| && Before(s, t)
  }

  ghost predicate DestroyDone(s: State) {
    s.destroyed && forall t :: 0 <= t < |s.pc| ==> !Destroying(s, t)
  }

  // ---- the invariant ----

  ghost predicate ThreadOk(s: State, t: nat)
    requires t < |s.pc|
  {
    && (t in s.waiters <==> OnList(s, t))
    && (s.pc[t] == At(WaitPost) ==> !s.destroyed)
    && (Destroying(s, t) ==>
          s.destroyed && s.pc[t].phase.posted <= |s.waiters|
          && s.gate + |s.waiters| - s.pc[t].phase.posted >= |Blocked(s)|)
  }

  ghost predicate Inv(s: State) {
    && Distinct(s.waiters) && (forall t :: t in s.waiters ==> t < |s.pc|)
    && (forall t :: 0 <= t < |s.pc| ==> ThreadOk(s, t))
    && |SelfSection(s)| + s.selfLock == 1
    && (DestroyDone(s) ==> s.gate >= |Blocked(s)|)
  }

  lemma InitInv(s: State)
    requires Init(s)
    ensures Inv(s)
  {
    assert SelfSection(s) == {} && Blocked(s) == {};
  }

  lemma {:induction false} ListCovers(a: set<nat>, list: seq<nat>)
    requires forall t :: t in a ==> t in list
    ensures |a| <= |list|
  {
    if list == [] {
      assert a == {};
    } else {
      ListCovers(a - {list[0]}, list[1..]);
      Without(a, list[0]);
    }
  }

  lemma BlockedListed(s: State)
    requires forall t :: 0 <= t < |s.pc| ==> (t in s.waiters <==> OnList(s, t))
    ensures |Blocked(s)| <= |s.waiters|
  {
    ListCovers(Blocked(s), s.waiters);
  }

  // Only one thread at a time is between a wait and a post of self_lock.
  lemma OneInside(s: State, t: nat, u: nat)
    requires |SelfSection(s)| + s.selfLock == 1
    requires t < |s.pc| && u < |s.pc| && InSelfSection(s, t) && InSelfSection(s, u)
    ensures t == u && s.selfLock == 0
  {
    var c := SelfSection(s);
    assert t in c && u in c;
    assert |c - {t}| == |c| - 1;
    assert c - {t} == {};
  }

  ghost predicate OnlyMoved(s: State, n: State, t: nat) {
    && |n.pc| == |s.pc| && t < |s.pc|
    && (forall u :: 0 <= u < |s.pc| && u != t ==> n.pc[u] == s.pc[u])
    && (forall u :: u != t ==> (u in n.waiters <==> u in s.waiters))
  }

  lemma BeginLists(s: State, n: State, t: nat)
    requires Begins(s, n, t) && Distinct(s.waiters) && (t in s.waiters <==> OnList(s, t))
    ensures OnlyMoved(s, n, t) && Distinct(n.waiters) && (t in n.waiters <==> OnList(n, t))
    ensures n.waiters == s.waiters && n.destroyed == s.destroyed
  {
    hide Distinct;
  }

  lemma StepLists(s: State, t: nat)
    requires Enabled(s, t) && Distinct(s.waiters) && (t in s.waiters <==> OnList(s, t))
    ensures var n := Advance(s, t);
      OnlyMoved(s, n, t) && Distinct(n.waiters) && (t in n.waiters <==> OnList(n, t))
      && (n.waiters != s.waiters || n.destroyed != s.destroyed ==> InSelfSection(s, t))
  {
    RemoveFirstIs(s.waiters, t);
    DistinctAdded(s.waiters, t);
    hide RemoveFirst, Distinct;
  }

  lemma MoveLists(s: State, n: State, t: nat)
    requires Moves(s, n, t) && Distinct(s.waiters) && t < |s.pc| && (t in s.waiters <==> OnList(s, t))
    ensures OnlyMoved(s, n, t) && Distinct(n.waiters) && (t in n.waiters <==> OnList(n, t))
    ensures n.waiters != s.waiters || n.destroyed != s.destroyed ==> InSelfSection(s, t)
  {
    hide Begins, Enabled, Advance, OnlyMoved, Distinct, OnList, InSelfSection;
    if Begins(s, n, t) {
      BeginLists(s, n, t);
    } else {
      StepLists(s, t);
    }
  }

  lemma MoveCounts(s: State, n: State, t: nat)
    requires Moves(s, n, t) && t < |s.pc|
    ensures |n.pc| == |s.pc| && (s.destroyed ==> n.destroyed)
    ensures n.selfLock - s.selfLock == Unit(InSelfSection(s, t)) - Unit(InSelfSection(n, t))
    ensures n.gate - s.gate >= Unit(Before(n, t)) - Unit(Before(s, t)) || (!s.destroyed && !n.destroyed)
  {
    hide RemoveFirst;
  }

  lemma MoveIs(s: State, n: State, t: nat)
    requires Moves(s, n, t) && Inv(s) && t < |s.pc|
    ensures OnlyMoved(s, n, t) && Distinct(n.waiters) && (t in n.waiters <==> OnList(n, t))
    ensures n.waiters != s.waiters || n.destroyed != s.destroyed ==> InSelfSection(s, t)
    ensures s.destroyed ==> n.destroyed
    ensures n.selfLock - s.selfLock == Unit(InSelfSection(s, t)) - Unit(InSelfSection(n, t))
    ensures n.gate - s.gate >= Unit(Before(n, t)) - Unit(Before(s, t)) || (!s.destroyed && !n.destroyed)
  {
    assert ThreadOk(s, t);
    hide Moves;
    MoveLists(s, n, t);
    MoveCounts(s, n, t);
  }

  lemma ListedAll(s: State)
    requires Inv(s)
    ensures forall u :: 0 <= u < |s.pc| ==> (u in s.waiters <==> OnList(s, u))
  {
    forall u | 0 <= u < |s.pc|
      ensures u in s.waiters <==> OnList(s, u)
    {
      assert ThreadOk(s, u);
    }
  }

  // What a step does to the destruction.
  lemma DestroyMoves(s: State, n: State, t: nat)
    requires Moves(s, n, t) && t < |s.pc|
    ensures |n.pc| == |s.pc|
    ensures Destroying(n, t) && !Destroying(s, t) ==>
      !s.destroyed && n.destroyed && n.pc[t] == At(DestroyLoop(0)) && n.waiters == s.waiters
    ensures n.destroyed && !s.destroyed ==> Destroying(n, t)
    ensures Destroying(s, t) ==> n.waiters == s.waiters && n.selfLock >= s.selfLock && !Before(n, t) && !Before(s, t)
    ensures Destroying(s, t) && Destroying(n, t) ==>
      n.gate == s.gate + 1 && n.pc[t].phase.posted == s.pc[t].phase.posted + 1 <= |s.waiters|
    ensures Destroying(s, t) && !Destroying(n, t) ==> n.gate == s.gate && s.pc[t].phase.posted >= |s.waiters|
    ensures n.pc[t] == At(WaitPost) ==> !n.destroyed
  {
    hide RemoveFirst;
  }

  lemma BlockedMoves(s: State, n: State, t: nat)
    requires OnlyMoved(s, n, t)
    ensures |Blocked(n)| - |Blocked(s)| == Unit(Before(n, t)) - Unit(Before(s, t))
    ensures |SelfSection(n)| - |SelfSection(s)| == Unit(InSelfSection(n, t)) - Unit(InSelfSection(s, t))
  {
    CountsDiffer(Blocked(s), Blocked(n), t);
    CountsDiffer(SelfSection(s), SelfSection(n), t);
  }

  lemma ListedStays(s: State, n: State, t: nat)
    requires OnlyMoved(s, n, t) && (forall u :: 0 <= u < |s.pc| ==> (u in s.waiters <==> OnList(s, u)))
    requires t in n.waiters <==> OnList(n, t)
    requires forall u :: u in s.waiters ==> u < |s.pc|
    ensures forall u :: 0 <= u < |n.pc| ==> (u in n.waiters <==> OnList(n, u))
    ensures forall u :: u in n.waiters ==> u < |n.pc|
  {
    forall u | 0 <= u < |n.pc|
      ensures u in n.waiters <==> OnList(n, u)
    {
      if u != t {
        assert u in s.waiters <==> OnList(s, u);
        assert u in n.waiters <==> u in s.waiters;
      }
    }
  }

  // Posts made and posts still owed cover the threads before the gate.
  lemma DestroyerStays(s: State, n: State, t: nat, u: nat)
    requires Inv(s) && Moves(s, n, t) && t < |s.pc| && u < |n.pc| && OnlyMoved(s, n, t) && Destroying(n, u)
    requires forall v :: 0 <= v < |n.pc| ==> (v in n.waiters <==> OnList(n, v))
    ensures n.destroyed && n.pc[u].phase.posted <= |n.waiters|
    ensures n.gate + |n.waiters| - n.pc[u].phase.posted >= |Blocked(n)|
  {
    assert ThreadOk(s, t) && ThreadOk(s, u);
    MoveIs(s, n, t);
    DestroyMoves(s, n, t);
    BlockedMoves(s, n, t);
    if u == t {
      if !Destroying(s, t) {
        BlockedListed(n);
      }
    } else if n.waiters != s.waiters {
      OneInside(s, t, u);
    }
  }

  lemma DoneStays(s: State, n: State, t: nat)
    requires Inv(s) && Moves(s, n, t) && t < |s.pc| && OnlyMoved(s, n, t) && DestroyDone(n)
    ensures n.gate >= |Blocked(n)|
  {
    assert ThreadOk(s, t);
    MoveIs(s, n, t);
    DestroyMoves(s, n, t);
    BlockedMoves(s, n, t);
    assert !Destroying(n, t);
    if !Destroying(s, t) {
      forall u | 0 <= u < |s.pc|
        ensures !Destroying(s, u)
      {
        assert !Destroying(n, u);
      }
    }
  }

  lemma NextInv(s: State, n: State, t: nat)
    requires Inv(s) && Moves(s, n, t)
    ensures Inv(n) && OnlyMoved(s, n, t)
  {
    assert t < |s.pc| && ThreadOk(s, t);
    MoveIs(s, n, t);
    DestroyMoves(s, n, t);
    BlockedMoves(s, n, t);
    ListedAll(s);
    hide Moves, Blocked, SelfSection, InSelfSection, Before;
    ListedStays(s, n, t);
    forall u | 0 <= u < |n.pc|
      ensures ThreadOk(n, u)
    {
      assert ThreadOk(s, u);
      if Destroying(n, u) {
        DestroyerStays(s, n, t, u);
      }
      if n.pc[u] == At(WaitPost) && u != t && n.destroyed && !s.destroyed {
        PostersInside(s, t, u);
      }
    }
    if DestroyDone(n) {
      DoneStays(s, n, t);
    }
  }

  lemma PostersInside(s: State, t: nat, u: nat)
    requires |SelfSection(s)| + s.selfLock == 1 && t < |s.pc| && u < |s.pc| && t != u && InSelfSection(s, t)
    ensures s.pc[u] != At(WaitPost)
  {
    if InSelfSection(s, u) {
      OneInside(s, t, u);
    }
  }

  lemma RunStep(run: seq<State>, i: nat) returns (t: nat)
    requires Run(run) && i + 1 < |run|
    ensures Moves(run[i], run[i + 1], t)
  {
    hide Moves;
    assert Next(run[i], run[i + 1]);
    t :| Moves(run[i], run[i + 1], t);
  }

  lemma {:induction false} RunInv(run: seq<State>, i: nat)
    requires Run(run) && i < |run|
    ensures Inv(run[i])
  {
    if i == 0 {
      InitInv(run[0]);
    } else {
      hide Inv, Moves;
      RunInv(run, i - 1);
      var t := RunStep(run, i - 1);
      NextInv(run[i - 1], run[i], t);
    }
  }

  // In every run, once a Destroy is through, the gate has a unit for each registered thread that is still before it,
  // and whoever waits at the gate can pass it.
  lemma GateCoversWaiters(run: seq<State>, i: nat, t: nat)
    requires Run(run) && i < |run| && DestroyDone(run[i]) && t < |run[i].pc|
    ensures run[i].gate >= |Blocked(run[i])|
    ensures run[i].pc[t] == At(WaitGate) ==> Enabled(run[i], t)
  {
    RunInv(run, i);
    if run[i].pc[t] == At(WaitGate) {
      WaiterPasses(run[i], t);
    }
  }

  // ---- after the destruction ----

  // Nobody registers any more.
  lemma {:induction false} NoNewWaiters(run: seq<State>, i: nat, j: nat, t: nat)
    requires Run(run) && i <= j < |run| && run[i].destroyed && t < |run[j].pc|
    ensures run[j].destroyed && |run[j].pc| == |run[i].pc|
    ensures Before(run[j], t) ==> Before(run[i], t)
  {
    hide Run, Moves, Before;
    if i < j {
      var u := RunStep(run, j - 1);
      SameThreads(run[j - 1], run[j], u);
      NoNewWaiters(run, i, j - 1, t);
      StillDestroyed(run[j - 1], run[j], u, t);
    }
  }

  lemma SameThreads(s: State, n: State, u: nat)
    requires Moves(s, n, u)
    ensures |n.pc| == |s.pc|
  {
    hide RemoveFirst;
  }

  lemma StillDestroyed(s: State, n: State, u: nat, t: nat)
    requires Moves(s, n, u) && s.destroyed && t < |s.pc|
    ensures n.destroyed && |n.pc| == |s.pc| && (Before(n, t) ==> Before(s, t))
  {
    hide RemoveFirst;
  }

  // Whoever waits at the gate can pass it.
  lemma WaiterPasses(s: State, t: nat)
    requires Inv(s) && DestroyDone(s) && t < |s.pc| && s.pc[t] == At(WaitGate)
    ensures Enabled(s, t)
  {
    assert t in Blocked(s);
    assert |Blocked(s)| > 0;
  }

  // After the destruction, threads stop moving only when every call has returned.
  lemma NobodyLeftInside(run: seq<State>, i: nat, t: nat)
    requires Run(run) && i < |run| && run[i].destroyed && t < |run[i].pc|
    requires forall u :: 0 <= u < |run[i].pc| ==> !Enabled(run[i], u)
    ensures run[i].pc[t] == Idle
  {
    var s := run[i];
    RunInv(run, i);
    hide Run;
    forall u | 0 <= u < |s.pc|
      ensures !Destroying(s, u)
    {
      assert !Enabled(s, u);
    }
    if s.selfLock == 0 {
      var u := InsiderMoves(s);
      assert false;
    }
    assert !Enabled(s, t);
    if s.pc[t] == At(WaitGate) {
      WaiterPasses(s, t);
      assert false;
    }
  }

  lemma InsiderMoves(s: State) returns (u: nat)
    requires |SelfSection(s)| + s.selfLock == 1 && s.selfLock == 0
    ensures u < |s.pc| && Enabled(s, u)
  {
    assert SelfSection(s) != {};
    u :| u in SelfSection(s);
  }
}

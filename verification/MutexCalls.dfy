// What Lock and UnLock have done when they return, seen over a run.
module MutexCalls {
  import opened LockGraphs
  import opened GraphLinks
  import opened Lists
  import opened MutexSystem
  import opened MutexDeadlock

  predicate InLock(s: State, t: nat, m: nat) {
    Inside(s, t, m) && s.pc[t].phase in {LockWaitSelf, LockCheck, LockRefuse, LockPostSelf, RequireWait, RequireBody,
                                         RequirePost, WaitLock, CatchWait, CatchBody, CatchPost}
  }

  predicate InUnlock(s: State, t: nat, m: nat) {
    Inside(s, t, m) && s.pc[t].phase in {UnlockWaitSelf, UnlockCheck, UnlockRefuse, UnlockPostSelf, ReleaseWait,
                                         ReleaseBody, ReleasePost, PostLock}
  }

  // One call from its first step to its return.
  ghost predicate CallFrom(run: seq<State>, i: nat, j: nat, t: nat, phase: Phase, m: nat) {
    && Run(run) && i < j < |run| && t in run[i].pc && m in run[i].mutexes && run[i].pc[t] == At(phase, m)
    && (forall k :: i <= k < j ==> Inside(run[k], t, m))
    && t in run[j].pc && run[j].pc[t] == Idle
  }

  // How many steps a thread has still to make in a call, at most.
  function Rank(pc: Pc): nat {
    match pc
    case Idle => 0
    case Exited => 0
    case At(phase, _) =>
      match phase
      case LockWaitSelf => 10
      case LockCheck => 9
      case LockRefuse => 1
      case LockPostSelf => 8
      case RequireWait => 7
      case RequireBody => 6
      case RequirePost => 5
      case WaitLock => 4
      case CatchWait => 3
      case CatchBody => 2
      case CatchPost => 1
      case UnlockWaitSelf => 7
      case UnlockCheck => 6
      case UnlockRefuse => 1
      case UnlockPostSelf => 5
      case ReleaseWait => 4
      case ReleaseBody => 3
      case ReleasePost => 2
      case PostLock => 1
  }

  lemma StepInLock(s: State, t: nat)
    requires Enabled(s, t) && InLock(s, t, s.pc[t].mutex)
    ensures t in Advance(s, t).pc && Rank(Advance(s, t).pc[t]) < Rank(s.pc[t])
    ensures InLock(Advance(s, t), t, s.pc[t].mutex) || Advance(s, t).pc[t] in {Idle, Exited}
  {
    hide Registered, Caught, Released, Required, RemoveFirst, Reports;
  }

  lemma StepInUnlock(s: State, t: nat)
    requires Enabled(s, t) && InUnlock(s, t, s.pc[t].mutex)
    ensures t in Advance(s, t).pc && Rank(Advance(s, t).pc[t]) < Rank(s.pc[t])
    ensures InUnlock(Advance(s, t), t, s.pc[t].mutex) || Advance(s, t).pc[t] in {Idle, Exited}
  {
    hide Registered, Caught, Released, Required, RemoveFirst, Reports;
  }

  lemma StepRank(s: State, t: nat)
    requires Enabled(s, t)
    ensures t in Advance(s, t).pc && Rank(Advance(s, t).pc[t]) < Rank(s.pc[t])
  {
    hide Advance, Rank;
    if InLock(s, t, s.pc[t].mutex) {
      StepInLock(s, t);
    } else {
      EitherCall(s, t);
      StepInUnlock(s, t);
    }
  }

  lemma EitherCall(s: State, t: nat)
    requires Enabled(s, t)
    ensures InLock(s, t, s.pc[t].mutex) || InUnlock(s, t, s.pc[t].mutex)
  {
  }

  // Every step of a thread brings its call nearer to its return.
  lemma CallsEnd(s: State, n: State, t: nat)
    requires Moves(s, n, t) && s.pc[t] != Idle
    ensures t in n.pc && Rank(n.pc[t]) < Rank(s.pc[t]) <= 10
  {
    StepRank(s, t);
    hide Advance;
  }

  // Where a thread leaves Lock it is listed, and where it leaves UnLock it is not.
  lemma LeavesCall(s: State, t: nat, m: nat)
    requires Enabled(s, t) && m in s.mutexes && Inside(s, t, m) && PairOk(s, t, m)
    requires t in Advance(s, t).pc && Advance(s, t).pc[t] == Idle
    ensures InLock(s, t, m) ==> Listed(Advance(s, t), t, m)
    ensures InUnlock(s, t, m) ==> !Listed(Advance(s, t), t, m)
  {
    hide LinkOf, Registered, Caught, Released, Required, RemoveFirst, Reports;
  }

  lemma InvPair(s: State, t: nat, m: nat)
    requires Inv(s) && t in s.pc && m in s.mutexes
    ensures PairOk(s, t, m) && MutexOk(s, m)
  {
  }

  // The same call, one step later.
  lemma CallStays(s: State, n: State, u: nat, t: nat, m: nat)
    requires Inv(s) && Moves(s, n, u) && m in s.mutexes && Inside(s, t, m)
    ensures m in n.mutexes && t in n.pc
    ensures InLock(s, t, m) ==> InLock(n, t, m) || (n.pc[t] == Idle && Listed(n, t, m))
    ensures InUnlock(s, t, m) ==> InUnlock(n, t, m) || (n.pc[t] == Idle && !Listed(n, t, m))
  {
    hide Inv, Moves, PairOk, MutexOk;
    var l := MoveMutex(s, n, u);
    InvPair(s, t, m);
    NextInv(s, n, u);
    NoExit(n, t);
    if u == t {
      InsideMoves(s, n, t);
      hide Advance, InLock, InUnlock;
      if InLock(s, t, m) {
        StepInLock(s, t);
      }
      if InUnlock(s, t, m) {
        StepInUnlock(s, t);
      }
      if n.pc[t] == Idle {
        LeavesCall(s, t, m);
      }
    }
  }

  lemma NoExit(s: State, t: nat)
    requires Inv(s)
    ensures t in s.pc ==> s.pc[t] != Exited
  {
    if t in s.pc {
      assert ThreadOk(s, t);
    }
  }

  lemma InsideMoves(s: State, n: State, t: nat)
    requires Moves(s, n, t) && s.pc[t].At?
    ensures Enabled(s, t) && n == Advance(s, t)
  {
    hide Advance;
  }

  lemma {:induction false} CallAlong(run: seq<State>, i: nat, k: nat, t: nat, m: nat)
    requires Run(run) && i <= k < |run| && m in run[i].mutexes && InLock(run[i], t, m) != InUnlock(run[i], t, m)
    requires forall l :: i <= l < k ==> Inside(run[l], t, m)
    ensures m in run[k].mutexes && t in run[k].pc
    ensures InLock(run[i], t, m) ==> InLock(run[k], t, m) || (run[k].pc[t] == Idle && Listed(run[k], t, m))
    ensures InUnlock(run[i], t, m) ==> InUnlock(run[k], t, m) || (run[k].pc[t] == Idle && !Listed(run[k], t, m))
  {
    hide Run, Inv, Moves, Listed;
    if i < k {
      CallAlong(run, i, k - 1, t, m);
      RunInv(run, k - 1);
      var u := RunStep(run, k - 1);
      CallStays(run[k - 1], run[k], u, t, m);
    }
  }

  // An idle thread that is listed has the mutex and its entry, and one that is not has neither.
  lemma Settled(s: State, t: nat, m: nat)
    requires Inv(s) && t in s.pc && m in s.mutexes && s.pc[t] == Idle
    ensures t in s.mutexes[m].lockers ==>
      LinkOf(s.graph, t, m) == Holding && s.mutexes[m].lock == 0 && Owns(s, t, m)
      && forall u :: u in s.pc && u != t ==> !Owns(s, u, m)
    ensures t !in s.mutexes[m].lockers ==>
      LinkOf(s.graph, t, m) == None && !Owns(s, t, m)
      && (s.mutexes[m].lock == 1 <==> forall u :: u in s.pc ==> !Owns(s, u, m))
  {
    InvPair(s, t, m);
    hide Inv, LinkOf;
    if t in s.mutexes[m].lockers {
      assert Owns(s, t, m);
      OwnersAlone(s, m, t);
    } else {
      OwnersNone(s, m);
    }
  }

  lemma OwnersAlone(s: State, m: nat, t: nat)
    requires m in s.mutexes && |Owners(s, m)| + s.mutexes[m].lock == 1 && t in s.pc && Owns(s, t, m)
    ensures s.mutexes[m].lock == 0 && forall u :: u in s.pc && u != t ==> !Owns(s, u, m)
  {
    hide Owns;
    var a := Owners(s, m);
    assert t in a;
    forall u | u in s.pc && u != t
      ensures !Owns(s, u, m)
    {
      if Owns(s, u, m) {
        assert u in a;
        AtMostOne(a, t, u);
      }
    }
    Without(a, t);
  }

  lemma OwnersNone(s: State, m: nat)
    requires m in s.mutexes && |Owners(s, m)| + s.mutexes[m].lock == 1
    ensures s.mutexes[m].lock == 1 <==> forall u :: u in s.pc ==> !Owns(s, u, m)
  {
    hide Owns;
    if s.mutexes[m].lock == 1 {
      assert Owners(s, m) == {};
      forall u | u in s.pc
        ensures !Owns(s, u, m)
      {
        assert u !in Owners(s, m);
      }
    }
    if forall u :: u in s.pc ==> !Owns(s, u, m) {
      assert Owners(s, m) == {};
    }
  }

  // When Lock returns, whoever called it is listed, holds the entry in the graph and has the only unit of the mutex.
  lemma LockReturns(run: seq<State>, i: nat, j: nat, t: nat, m: nat)
    requires CallFrom(run, i, j, t, LockWaitSelf, m)
    ensures m in run[j].mutexes && t in run[j].mutexes[m].lockers && Owns(run[j], t, m)
    ensures LinkOf(run[j].graph, t, m) == Holding && run[j].mutexes[m].lock == 0
    ensures forall u :: u in run[j].pc && u != t ==> !Owns(run[j], u, m)
  {
    hide Run, Inv, LinkOf, Owns;
    assert InLock(run[i], t, m);
    CallAlong(run, i, j, t, m);
    RunInv(run, j);
    Settled(run[j], t, m);
  }

  // When UnLock returns, whoever called it is neither listed nor in the graph; the mutex has its unit again unless
  // somebody else has taken it.
  lemma UnlockReturns(run: seq<State>, i: nat, j: nat, t: nat, m: nat)
    requires CallFrom(run, i, j, t, UnlockWaitSelf, m)
    ensures m in run[j].mutexes && t !in run[j].mutexes[m].lockers && !Owns(run[j], t, m)
    ensures LinkOf(run[j].graph, t, m) == None
    ensures run[j].mutexes[m].lock == 1 <==> forall u :: u in run[j].pc ==> !Owns(run[j], u, m)
  {
    hide Run, Inv, LinkOf, Owns;
    assert InUnlock(run[i], t, m);
    CallAlong(run, i, j, t, m);
    RunInv(run, j);
    Settled(run[j], t, m);
  }

  // ---- alone, every call returns ----

  // Nobody else is in a call, and nobody else has the mutex that t locks.
  ghost predicate Alone(s: State, t: nat, m: nat) {
    && t in s.pc && m in s.mutexes
    && forall u :: u in s.pc && u != t ==> s.pc[u] == Idle && (InUnlock(s, t, m) || !Listed(s, u, m))
  }

  lemma AloneEnabled(s: State, t: nat, m: nat)
    requires Inv(s) && Alone(s, t, m) && Inside(s, t, m)
    ensures Enabled(s, t)
  {
    InvPair(s, t, m);
    assert |GraphSection(s)| + s.graphLock == 1;
    hide Inv, LinkOf;
    if s.pc[t].phase in {LockWaitSelf, UnlockWaitSelf} {
      assert SelfSection(s, m) == {};
    }
    if s.pc[t].phase in {RequireWait, CatchWait, ReleaseWait} {
      assert GraphSection(s) == {};
    }
    if s.pc[t].phase == WaitLock {
      assert Owners(s, m) == {};
    }
  }

  lemma AloneStays(s: State, t: nat, m: nat)
    requires Inv(s) && Alone(s, t, m) && Enabled(s, t) && (InLock(s, t, m) || InUnlock(s, t, m))
    ensures var n := Advance(s, t);
      t in n.pc && (n.pc[t] == Idle || (Alone(n, t, m) && (InLock(n, t, m) || InUnlock(n, t, m))))
  {
    var n := Advance(s, t);
    assert Moves(s, n, t);
    CallStays(s, n, t, t, m);
    var l := MoveMutex(s, n, t);
    if InLock(s, t, m) {
      StepInLock(s, t);
    } else {
      StepInUnlock(s, t);
    }
    hide Inv, Advance, Enabled, Moves;
  }

  lemma {:induction false} FinishesAlone(run: seq<State>, t: nat, m: nat) returns (longer: seq<State>)
    requires Run(run) && Alone(run[|run| - 1], t, m)
    requires InLock(run[|run| - 1], t, m) || InUnlock(run[|run| - 1], t, m)
    ensures Run(longer) && |longer| > |run| && longer[..|run|] == run
    ensures forall k :: |run| - 1 <= k < |longer| - 1 ==> Inside(longer[k], t, m)
    ensures t in longer[|longer| - 1].pc && longer[|longer| - 1].pc[t] == Idle
    decreases Rank(run[|run| - 1].pc[t])
  {
    hide Inv, Advance, Enabled, Moves;
    var s := run[|run| - 1];
    RunInv(run, |run| - 1);
    AloneEnabled(s, t, m);
    AloneStays(s, t, m);
    StepRank(s, t);
    AdvanceMoves(s, t);
    Extended(run, Advance(s, t), t);
    longer := run + [Advance(s, t)];
    if Advance(s, t).pc[t] != Idle {
      var more := longer;
      longer := FinishesAlone(more, t, m);
      assert longer[..|run|] == more[..|run|];
      assert longer[|run| - 1] == more[|run| - 1];
    }
  }

  lemma Extended(run: seq<State>, n: State, t: nat)
    requires Run(run) && Moves(run[|run| - 1], n, t)
    ensures Run(run + [n])
  {
    hide Moves;
    var longer := run + [n];
    forall i | 0 <= i < |longer| - 1
      ensures Next(longer[i], longer[i + 1])
    {
      if i < |run| - 1 {
        assert Next(run[i], run[i + 1]);
      } else {
        assert Moves(longer[i], longer[i + 1], t);
      }
    }
  }

  lemma AdvanceMoves(s: State, t: nat)
    requires Enabled(s, t)
    ensures Moves(s, Advance(s, t), t)
  {
    hide Advance;
  }

  // From every state of every run in which nobody is in a call and the mutex is free, an idle thread can call Lock and
  // return from it, and whoever has it can call UnLock and return.
  lemma CallsReturn(run: seq<State>, t: nat, m: nat, phase: Phase) returns (longer: seq<State>)
    requires Run(run) && AllIdle(run[|run| - 1]) && t in run[|run| - 1].pc && m in run[|run| - 1].mutexes
    requires phase == UnlockWaitSelf || (phase == LockWaitSelf && run[|run| - 1].mutexes[m].lockers == [])
    ensures |longer| > |run| && longer[..|run|] == run
    ensures CallFrom(longer, |run|, |longer| - 1, t, phase, m)
  {
    var s := run[|run| - 1];
    var n := Call(s, t, phase, m);
    assert Moves(s, n, t);
    assert n.mutexes == s.mutexes;
    var called := run + [n];
    hide Moves, Run;
    Extended(run, n, t);
    longer := FinishesAlone(called, t, m);
    assert longer[|run|] == longer[..|called|][|run|];
    assert longer[..|run|] == longer[..|called|][..|run|];
  }

  predicate AllIdle(s: State) {
    forall u :: u in s.pc ==> s.pc[u] == Idle
  }
}

// The check of the lock graph reports exactly the deadlocks of the threads.
module MutexDeadlock {
  import opened LockGraphs
  import opened GraphLinks
  import opened Lists
  import opened MutexSystem

  // The thread has announced that it wants the mutex and does not have it yet.
  predicate Waiting(s: State, t: nat, m: nat) {
    Inside(s, t, m) && s.pc[t].phase in {RequirePost, WaitLock}
  }

  ghost predicate BlockedIn(s: State, t: nat, d: set<nat>) {
    exists m, u :: m in s.mutexes && u in d && Waiting(s, t, m) && Owns(s, u, m)
  }

  // Threads each of which waits for a mutex that another of them has.
  ghost predicate DeadlockedThreads(s: State, d: set<nat>) {
    d != {} && (forall t :: t in d ==> t in s.pc) && forall t :: t in d ==> BlockedIn(s, t, d)
  }

  ghost predicate Deadlock(s: State) {
    exists d :: DeadlockedThreads(s, d)
  }

  lemma Blocker(s: State, d: set<nat>, t: nat) returns (m: nat, u: nat)
    requires DeadlockedThreads(s, d) && t in d
    ensures t in s.pc && m in s.mutexes && u in d && u in s.pc && Waiting(s, t, m) && Owns(s, u, m)
  {
    assert BlockedIn(s, t, d);
    m, u :| m in s.mutexes && u in d && Waiting(s, t, m) && Owns(s, u, m);
  }

  // ---- what an entry of the graph says about its thread ----

  lemma EntryThread(s: State, i: nat)
    requires Inv(s) && i < |s.graph|
    ensures var e := s.graph[i];
      e.transaction in s.pc && e.lock in s.mutexes
      && (e.kind == Req ==> Inside(s, e.transaction, e.lock)
                            && s.pc[e.transaction].phase in {RequirePost, WaitLock, CatchWait, CatchBody})
      && (e.kind == Cat ==> Owns(s, e.transaction, e.lock) && !Waiting(s, e.transaction, e.lock))
  {
    assert GraphOk(s);
    var e := s.graph[i];
    LinkAt(s.graph, i);
    assert PairOk(s, e.transaction, e.lock);
  }

  lemma OneRequest(s: State)
    requires Inv(s)
    ensures OneRequestEach(s.graph)
  {
    forall i, j | 0 <= i < |s.graph| && 0 <= j < |s.graph| && SameRequest(s.graph[i], s.graph[j])
      ensures i == j
    {
      EntryThread(s, i);
      EntryThread(s, j);
      OnePlace(s.graph, i, j);
    }
  }

  lemma OneOwner(s: State, m: nat, t: nat, u: nat)
    requires Inv(s) && m in s.mutexes && t in s.pc && u in s.pc && Owns(s, t, m) && Owns(s, u, m)
    ensures t == u && s.mutexes[m].lock == 0
  {
    assert MutexOk(s, m);
    hide Inv, Owns;
    var a := Owners(s, m);
    assert t in a && u in a;
    AtMostOne(a, t, u);
  }

  lemma AtMostOne(a: set<nat>, t: nat, u: nat)
    requires |a| <= 1 && t in a && u in a
    ensures t == u && |a| == 1
  {
    assert |a - {t}| == |a| - 1;
    assert a - {t} == {};
  }

  // ---- a report is a deadlock ----

  // The threads that request something in a wait-closed set of entries.
  ghost function Requesters(s: State, c: set<nat>): set<nat> {
    set i | i in c && i < |s.graph| && s.graph[i].kind == Req :: s.graph[i].transaction
  }

  lemma RequesterBlocked(s: State, c: set<nat>, i: nat)
    requires Inv(s) && WaitClosed(s.graph, c) && i in c && i < |s.graph| && s.graph[i].kind == Req
    ensures s.graph[i].transaction in s.pc && BlockedIn(s, s.graph[i].transaction, Requesters(s, c))
  {
    hide WaitClosed, Inv, Owns;
    var e := s.graph[i];
    EntryThread(s, i);
    var j := Partner(s.graph, c, i);
    EntryThread(s, j);
    var u := s.graph[j].transaction;
    var k := Partner(s.graph, c, j);
    assert u in Requesters(s, c) && Owns(s, u, e.lock);
    if s.pc[e.transaction].phase in {CatchWait, CatchBody} {
      CatcherOwns(s, e.transaction, e.lock);
      OneOwner(s, e.lock, e.transaction, u);
      OtherPlace(s, i, j);
      assert false;
    }
    assert Waiting(s, e.transaction, e.lock);
  }

  lemma OtherPlace(s: State, i: nat, j: nat)
    requires Inv(s) && i < |s.graph| && j < |s.graph| && i != j
    ensures !Matches(s.graph[i], s.graph[j].transaction, s.graph[j].lock)
  {
    assert GraphOk(s);
    EntriesApart(s.graph, i, j);
  }

  lemma InvGraph(s: State)
    requires Inv(s)
    ensures GraphOk(s)
  {
  }

  lemma CatcherOwns(s: State, t: nat, m: nat)
    requires Inside(s, t, m) && s.pc[t].phase in {CatchWait, CatchBody}
    ensures Owns(s, t, m)
  {
  }

  lemma ReportIsDeadlock(s: State)
    requires Inv(s) && Reports(s.graph)
    ensures Deadlock(s)
  {
    hide Inv, WaitClosed, BlockedIn;
    var c: set<nat> :| LargestClosed(s.graph, c) && c != {} && AnyHard(s.graph, |c|);
    var i := SomeRequest(s.graph, c);
    var d := Requesters(s, c);
    assert s.graph[i].transaction in d;
    forall t | t in d
      ensures t in s.pc && BlockedIn(s, t, d)
    {
      var k :| k in c && k < |s.graph| && s.graph[k].kind == Req && s.graph[k].transaction == t;
      RequesterBlocked(s, c, k);
    }
    assert DeadlockedThreads(s, d);
  }

  // ---- a deadlock is reported ----

  lemma WaitingEntry(s: State, t: nat, m: nat) returns (i: nat)
    requires Inv(s) && m in s.mutexes && Waiting(s, t, m)
    ensures i < |s.graph| && Matches(s.graph[i], t, m) && s.graph[i].kind == Req
  {
    assert PairOk(s, t, m);
    i := Find(s.graph, t, m);
  }

  // A waiting thread owns other mutexes only, and holds them in the graph.
  lemma OwnedEntry(s: State, t: nat, w: nat, m: nat) returns (i: nat)
    requires Inv(s) && m in s.mutexes && Waiting(s, t, w) && Owns(s, t, m)
    ensures i < |s.graph| && Matches(s.graph[i], t, m) && s.graph[i].kind == Cat
  {
    assert PairOk(s, t, m);
    i := Find(s.graph, t, m);
  }

  ghost function EntriesOf(s: State, d: set<nat>): set<nat> {
    set i | 0 <= i < |s.graph| && s.graph[i].transaction in d
  }

  lemma DeadlockClosed(s: State, d: set<nat>)
    requires Inv(s) && DeadlockedThreads(s, d)
    ensures WaitClosed(s.graph, EntriesOf(s, d)) && EntriesOf(s, d) != {}
  {
    hide Inv, Owns, Waiting, BlockedIn, RequestIn, HeldIn;
    var c, g := EntriesOf(s, d), s.graph;
    forall i | i in c
      ensures i < |g| && if g[i].kind == Cat then RequestIn(g, c, g[i].transaction) else HeldIn(g, c, g[i].lock)
    {
      EntryClosed(s, d, i);
    }
    var t :| t in d;
    var m, u := Blocker(s, d, t);
    var i := WaitingEntry(s, t, m);
    assert i in c;
  }

  lemma EntryClosed(s: State, d: set<nat>, i: nat)
    requires Inv(s) && DeadlockedThreads(s, d) && i in EntriesOf(s, d)
    ensures var g, c := s.graph, EntriesOf(s, d);
      if g[i].kind == Cat then RequestIn(g, c, g[i].transaction) else HeldIn(g, c, g[i].lock)
  {
    hide Inv, Owns, Waiting, DeadlockedThreads;
    var g, c, t := s.graph, EntriesOf(s, d), s.graph[i].transaction;
    var m, u := Blocker(s, d, t);
    if g[i].kind == Cat {
      var k := WaitingEntry(s, t, m);
      assert k in c;
    } else {
      EntryThread(s, i);
      WaitsOnce(s, t, m, g[i].lock);
      var l, v := Blocker(s, d, u);
      var k := OwnedEntry(s, u, l, m);
      assert k in c;
    }
  }

  lemma WaitsOnce(s: State, t: nat, m: nat, l: nat)
    requires Waiting(s, t, m) && Inside(s, t, l)
    ensures m == l
  {
  }

  // At every moment the graph shows a deadlock just when the threads are in one.
  lemma ReportsIffDeadlock(s: State)
    requires Inv(s)
    ensures Reports(s.graph) <==> Deadlock(s)
  {
    hide Inv, WaitClosed, WaitCycle, DeadlockedThreads;
    if Reports(s.graph) {
      ReportIsDeadlock(s);
    }
    if d :| DeadlockedThreads(s, d) {
      DeadlockClosed(s, d);
      CycleIff(s.graph);
      InvGraph(s);
      HardReportsIffCycle(s.graph);
    }
  }

  // ---- a deadlock stays, and begins with a request ----

  // Whatever a thread outside does leaves what the threads inside wait for and have.
  lemma OthersUntouched(s: State, n: State, t: nat, u: nat, l: nat)
    requires Inv(s) && Moves(s, n, t) && u in s.pc && u != t && l in s.mutexes
    ensures u in n.pc && l in n.mutexes && Owns(n, u, l) == Owns(s, u, l) && Waiting(n, u, l) == Waiting(s, u, l)
  {
    var m := MoveMutex(s, n, t);
    hide Inv, Moves;
    UntouchedBut(s, n, t, m, u, l);
  }

  lemma UntouchedBut(s: State, n: State, t: nat, m: nat, u: nat, l: nat)
    requires OnlyMoved(s, n, t, m) && u in s.pc && u != t && l in s.mutexes
    ensures u in n.pc && l in n.mutexes && Owns(n, u, l) == Owns(s, u, l) && Waiting(n, u, l) == Waiting(s, u, l)
  {
    assert Listed(n, u, l) == Listed(s, u, l);
    hide Listed, OnlyMoved;
  }

  lemma MoveMutex(s: State, n: State, t: nat) returns (m: nat)
    requires Inv(s) && Moves(s, n, t)
    ensures OnlyMoved(s, n, t, m)
  {
    assert GraphOk(s) && ThreadOk(s, t);
    if Begins(s, n, t) {
      m :| m in s.mutexes && (n == Call(s, t, LockWaitSelf, m) || n == Call(s, t, UnlockWaitSelf, m));
      assert PairOk(s, t, m) && MutexOk(s, m);
      hide Inv, PairOk, Balanced, LinksKept, Enabled, Advance;
      CallStep(s, t, n.pc[t].phase, m);
    } else {
      m := s.pc[t].mutex;
      assert PairOk(s, t, m) && MutexOk(s, m);
      hide Inv, Advance, PairOk, Balanced, LinksKept, Enabled;
      StepMoves(s, t);
    }
  }

  // What the waiting thread that moves keeps: it waits on, and has what it had.
  lemma WaiterMoves(s: State, n: State, t: nat, w: nat, l: nat)
    requires Moves(s, n, t) && l in s.mutexes && w in s.mutexes && Waiting(s, t, w) && s.mutexes[w].lock == 0
    ensures Waiting(n, t, w) && Owns(n, t, l) == Owns(s, t, l)
  {
    hide Required, Caught, Released, Registered, Reports, RemoveFirst;
  }

  lemma DeadlockStays(s: State, n: State, t: nat, d: set<nat>)
    requires Inv(s) && Moves(s, n, t) && DeadlockedThreads(s, d)
    ensures DeadlockedThreads(n, d)
  {
    forall u | u in d
      ensures u in n.pc && BlockedIn(n, u, d)
    {
      BlockedStays(s, n, t, d, u);
    }
  }

  lemma BlockedStays(s: State, n: State, t: nat, d: set<nat>, u: nat)
    requires Inv(s) && Moves(s, n, t) && DeadlockedThreads(s, d) && u in d
    ensures u in n.pc && BlockedIn(n, u, d)
  {
    hide Inv, Owns, Waiting, Moves, DeadlockedThreads;
    var m := MoveMutex(s, n, t);
    var w, v := Blocker(s, d, u);
    OneOwner(s, w, v, v);
    var l, x := Blocker(s, d, v);
    OneOwner(s, l, x, x);
    if u == t {
      WaiterMoves(s, n, t, w, w);
    } else {
      OthersUntouched(s, n, t, u, w);
    }
    if v == t {
      WaiterMoves(s, n, t, l, w);
    } else {
      OthersUntouched(s, n, t, v, w);
    }
  }

  // Except at the request itself, a thread that waits now did so before, with the same mutexes.
  lemma WaiterWas(s: State, n: State, t: nat, w: nat, l: nat)
    requires Moves(s, n, t) && l in s.mutexes && Waiting(n, t, w)
    requires s.pc[t].At? ==> s.pc[t].phase != RequireBody
    ensures w in s.mutexes && Waiting(s, t, w) && Owns(n, t, l) == Owns(s, t, l)
  {
    hide Required, Caught, Released, Registered, Reports, RemoveFirst;
  }

  lemma DeadlockWas(s: State, n: State, t: nat, d: set<nat>)
    requires Inv(s) && Moves(s, n, t) && DeadlockedThreads(n, d)
    requires s.pc[t].At? ==> s.pc[t].phase != RequireBody
    ensures DeadlockedThreads(s, d)
  {
    forall u | u in d
      ensures u in s.pc && BlockedIn(s, u, d)
    {
      BlockedWas(s, n, t, d, u);
    }
  }

  lemma BlockedWas(s: State, n: State, t: nat, d: set<nat>, u: nat)
    requires Inv(s) && Moves(s, n, t) && DeadlockedThreads(n, d) && u in d
    requires s.pc[t].At? ==> s.pc[t].phase != RequireBody
    ensures u in s.pc && BlockedIn(s, u, d)
  {
    hide Inv, Owns, Waiting, Moves, DeadlockedThreads;
    var m := MoveMutex(s, n, t);
    var w, v := Blocker(n, d, u);
    var l, x := Blocker(n, d, v);
    if u == t {
      WaiterWas(s, n, t, w, w);
    } else {
      OthersUntouched(s, n, t, u, w);
    }
    if v == t {
      WaiterWas(s, n, t, l, w);
    } else {
      OthersUntouched(s, n, t, v, w);
    }
  }

  lemma CheckReports(s: State, n: State, t: nat)
    requires Moves(s, n, t)
    requires s.pc[t].At? && s.pc[t].phase == CatchBody ==> Registered(s.graph, t, s.pc[t].mutex)
    ensures if s.pc[t].At? && s.pc[t].phase in {RequireBody, CatchBody} then n.reported == Reports(n.graph)
      else n.reported == s.reported
  {
    hide Reports, Registered, Required, Released, RemoveFirst;
  }

  lemma CatcherRegistered(s: State, t: nat)
    requires Inv(s) && t in s.pc && s.pc[t].At? && s.pc[t].phase == CatchBody
    ensures Registered(s.graph, t, s.pc[t].mutex)
  {
    assert ThreadOk(s, t);
    assert PairOk(s, t, s.pc[t].mutex);
  }

  lemma NextReport(s: State, n: State, t: nat)
    requires Inv(s) && Moves(s, n, t) && (s.reported <==> Deadlock(s))
    ensures n.reported <==> Deadlock(n)
  {
    hide Inv, Next, DeadlockedThreads, Reports, Registered, Enabled, Begins, Advance;
    NextInv(s, n, t);
    if s.pc[t].At? && s.pc[t].phase == CatchBody {
      CatcherRegistered(s, t);
    }
    CheckReports(s, n, t);
    if s.pc[t].At? && s.pc[t].phase in {RequireBody, CatchBody} {
      ReportsIffDeadlock(n);
    } else {
      if d :| DeadlockedThreads(s, d) {
        DeadlockStays(s, n, t, d);
      }
      if d :| DeadlockedThreads(n, d) {
        DeadlockWas(s, n, t, d);
      }
    }
  }

  lemma NoWaiter(s: State, d: set<nat>)
    requires Init(s)
    ensures !DeadlockedThreads(s, d)
  {
    if t :| t in d {
      assert !BlockedIn(s, t, d);
    }
  }

  // In every run, the last check has reported a deadlock just when some threads are in one.
  lemma {:induction false} DetectionIsExact(run: seq<State>, i: nat)
    requires Run(run) && i < |run|
    ensures run[i].reported <==> Deadlock(run[i])
  {
    if i == 0 {
      forall d
        ensures !DeadlockedThreads(run[0], d)
      {
        NoWaiter(run[0], d);
      }
    } else {
      hide Inv, Moves, Deadlock, Run;
      DetectionIsExact(run, i - 1);
      RunInv(run, i - 1);
      var t := RunStep(run, i - 1);
      NextReport(run[i - 1], run[i], t);
    }
  }

  // Threads in a deadlock never leave it.
  lemma {:induction false} DeadlockIsPermanent(run: seq<State>, i: nat, j: nat, d: set<nat>)
    requires Run(run) && i <= j < |run| && DeadlockedThreads(run[i], d)
    ensures DeadlockedThreads(run[j], d)
  {
    hide Inv, Moves, DeadlockedThreads, Run;
    if i < j {
      DeadlockIsPermanent(run, i, j - 1, d);
      RunInv(run, j - 1);
      var t := RunStep(run, j - 1);
      DeadlockStays(run[j - 1], run[j], t, d);
    }
  }

  // What was reported once is true ever after: the same threads are still waiting for one another.
  lemma ReportIsForever(run: seq<State>, i: nat, j: nat)
    requires Run(run) && i <= j < |run| && run[i].reported
    ensures run[j].reported
    ensures exists d :: DeadlockedThreads(run[i], d) && DeadlockedThreads(run[j], d)
  {
    hide Run, DeadlockedThreads;
    DetectionIsExact(run, i);
    DetectionIsExact(run, j);
    var d :| DeadlockedThreads(run[i], d);
    DeadlockIsPermanent(run, i, j, d);
  }

  // ---- mutual exclusion and progress ----

  // No process exit, and no two threads have one mutex.
  lemma RunSafe(run: seq<State>, i: nat, m: nat, t: nat, u: nat)
    requires Run(run) && i < |run| && m in run[i].mutexes && t in run[i].pc && u in run[i].pc
    ensures run[i].pc[t] != Exited
    ensures Owns(run[i], t, m) && Owns(run[i], u, m) ==> t == u
    ensures forall j, k :: 0 <= j < k < |run[i].graph| ==>
      run[i].graph[j].kind == Cat && run[i].graph[k].kind == Cat ==> run[i].graph[j].lock != run[i].graph[k].lock
    ensures OneRequestEach(run[i].graph)
  {
    var s := run[i];
    RunInv(run, i);
    assert ThreadOk(s, t);
    OneRequest(s);
    InvGraph(s);
    hide Inv, Owns, Run;
    if Owns(s, t, m) && Owns(s, u, m) {
      OneOwner(s, m, t, u);
    }
    forall j, k | 0 <= j < k < |s.graph| && s.graph[j].kind == Cat && s.graph[k].kind == Cat
      ensures s.graph[j].lock != s.graph[k].lock
    {
      EntryThread(s, j);
      EntryThread(s, k);
      EntriesApart(s.graph, j, k);
      if s.graph[j].lock == s.graph[k].lock {
        OneOwner(s, s.graph[j].lock, s.graph[j].transaction, s.graph[k].transaction);
      }
    }
  }

  // The internal semaphores block nobody for good: while no thread inside a call can go on, each of them waits for a
  // mutex that an idle thread or another waiting thread has.
  lemma OnlyMutexesBlock(s: State, t: nat)
    requires Inv(s) && (forall u :: u in s.pc ==> !Enabled(s, u)) && t in s.pc && s.pc[t] != Idle
    ensures exists m, u :: Inside(s, t, m) && s.pc[t].phase == WaitLock && u in s.pc && u != t && Owns(s, u, m)
                           && (s.pc[u] == Idle || s.pc[u].phase == WaitLock)
  {
    assert ThreadOk(s, t);
    WaitsForLock(s, t);
    var m := s.pc[t].mutex;
    assert MutexOk(s, m);
    assert Owners(s, m) != {};
    var u :| u in Owners(s, m);
    assert ThreadOk(s, u);
    if s.pc[u] != Idle {
      WaitsForLock(s, u);
    }
    assert Inside(s, t, m) && Owns(s, u, m);
  }

  lemma WaitsForLock(s: State, t: nat)
    requires Inv(s) && (forall u :: u in s.pc ==> !Enabled(s, u)) && t in s.pc && s.pc[t].At?
    ensures s.pc[t].phase == WaitLock && s.pc[t].mutex in s.mutexes && s.mutexes[s.pc[t].mutex].lock == 0
  {
    assert ThreadOk(s, t);
    assert !Enabled(s, t);
    var m := s.pc[t].mutex;
    assert s.mutexes[m].selfLock > 0 by {
      if s.mutexes[m].selfLock == 0 {
        var u := SelfHolderMoves(s, m);
      }
    }
    assert s.graphLock > 0 by {
      if s.graphLock == 0 {
        var u := GraphHolderMoves(s);
      }
    }
  }

  lemma SelfHolderMoves(s: State, m: nat) returns (u: nat)
    requires Inv(s) && m in s.mutexes && s.mutexes[m].selfLock == 0
    ensures u in s.pc && Enabled(s, u)
  {
    assert MutexOk(s, m);
    assert SelfSection(s, m) != {};
    u :| u in SelfSection(s, m);
  }

  lemma GraphHolderMoves(s: State) returns (u: nat)
    requires Inv(s) && s.graphLock == 0
    ensures u in s.pc && Enabled(s, u)
  {
    assert GraphSection(s) != {};
    u :| u in GraphSection(s);
    assert ThreadOk(s, u);
  }
}

// A run that unlocks a write before the read inside it: a unit leaks and the process exits.
module SemaphoreLeak {
  import opened LockGraphs
  import opened SemaphoreSystem

  ghost predicate Reachable(s: State) {
    exists run :: Run(run) && run[|run| - 1] == s
  }

  lemma Reach(s: State, n: State, t: nat)
    requires Reachable(s) && Moves(s, n, t)
    ensures Reachable(n)
  {
    hide Moves;
    var run :| Run(run) && run[|run| - 1] == s;
    var longer := run + [n];
    forall i | 0 <= i < |longer| - 1
      ensures Next(longer[i], longer[i + 1])
    {
      if i < |run| - 1 {
        assert Next(run[i], run[i + 1]);
      } else {
        assert Moves(longer[i], longer[i + 1], t);
      }
    }
    assert Run(longer);
  }

  // One thread, alone.
  function Solo(pc: Pc, lock: nat, readers: seq<nat>, writers: seq<nat>, graph: seq<Entry>, nested: set<nat>): State {
    State([pc], lock, 1, 1, readers, writers, graph, 1, nested, 0)
  }

  lemma Call(s: State, phase: Phase) returns (n: State)
    requires Reachable(s) && |s.pc| == 1 && s.pc[0] == Idle
    requires phase in {RWaitSelf, UrWaitSelf, WWaitSelf, UwWaitSelf}
    ensures Reachable(n) && n == s.(pc := [At(phase)])
  {
    n := Goto(s, 0, phase);
    assert n.pc == [At(phase)];
    Reach(s, n, 0);
  }

  lemma Step(s: State) returns (n: State)
    requires Reachable(s) && |s.pc| == 1 && Enabled(s, 0)
    ensures Reachable(n) && n == Advance(s, 0)
  {
    n := Advance(s, 0);
    Reach(s, n, 0);
  }

  const HELD: seq<Entry> := [Entry(0, 0, Cat, MODE_HARD)]

  // Collecting the units, one by one.
  lemma {:induction false} Collect(s: State) returns (n: State)
    requires Reachable(s) && |s.pc| == 1 && s.pc[0].At? && s.pc[0].phase.WCollect?
    requires s.pc[0].phase.taken + s.lock == PARALLEL_READERS
    ensures Reachable(n) && n == s.(pc := [At(WCollect(PARALLEL_READERS))], lock := 0)
    decreases s.lock
  {
    if s.lock == 0 {
      n := s;
      assert s.pc == [At(WCollect(PARALLEL_READERS))];
    } else {
      hide Reachable;
      n := Step(s);
      assert n.pc == [At(WCollect(s.pc[0].phase.taken + 1))];
      n := Collect(n);
    }
  }

  lemma RequestEntry(mode: int)
    ensures Required([], 0, LOCK, mode) == [Entry(0, 0, Req, mode)]
    ensures Registered([Entry(0, 0, Req, mode)], 0, LOCK)
    ensures Caught([Entry(0, 0, Req, mode)], 0, LOCK) == [Entry(0, 0, Cat, mode)]
    ensures Registered([Entry(0, 0, Cat, mode)], 0, LOCK) && Released([Entry(0, 0, Cat, mode)], 0, LOCK) == []
    ensures !Registered([], 0, LOCK)
  {
    FindIs([Entry(0, 0, Req, mode)], 0, LOCK, 0);
    FindIs([Entry(0, 0, Cat, mode)], 0, LOCK, 0);
  }

  lemma Asking() returns (s: State)
    ensures Reachable(s) && s == Solo(At(WReqWait), PARALLEL_READERS, [], [0], [], {})
  {
    s := Solo(Idle, PARALLEL_READERS, [], [], [], {});
    assert Run([s]);
    hide Reachable;
    s := Call(s, WWaitSelf);
    s := Step(s);
    s := Step(s);
    s := Step(s);
  }

  // LockWrite.
  lemma Writing() returns (s: State)
    ensures Reachable(s) && s == Solo(Idle, 0, [], [0], HELD, {})
  {
    RequestEntry(MODE_HARD);
    hide Required, Caught, Released, Registered, Reachable;
    s := Asking();
    s := Step(s);
    s := Step(s);
    s := Step(s);
    s := Step(s);
    s := Collect(s);
    s := Step(s);
    assert s == Solo(At(WCatWait), 0, [], [0], [Entry(0, 0, Req, MODE_HARD)], {});
    s := Step(s);
    s := Step(s);
    s := Step(s);
  }

  // LockRead inside, then UnLockWrite up to the entry's release.
  lemma Reading() returns (s: State)
    ensures Reachable(s) && s == Solo(At(UwRelPost), 0, [0], [], [], {0}).(graphLock := 0)
  {
    RequestEntry(MODE_HARD);
    hide Required, Caught, Released, Registered, Reachable;
    s := Writing();
    s := Call(s, RWaitSelf);
    s := Step(s);
    s := Step(s);
    s := Step(s);
    assert s == Solo(Idle, 0, [0], [0], HELD, {0});
    s := Call(s, UwWaitSelf);
    s := Step(s);
    s := Step(s);
    s := Step(s);
    assert s == Solo(At(UwRelWait), 0, [0], [], HELD, {0});
    s := Step(s);
    s := Step(s);
  }

  lemma {:induction false} GiveBack(s: State) returns (n: State)
    requires Reachable(s) && |s.pc| == 1 && s.pc[0].At? && s.pc[0].phase.UwGive?
    requires s.pc[0].phase.given == s.lock <= PARALLEL_READERS
    ensures Reachable(n) && n == s.(pc := [Idle], lock := PARALLEL_READERS)
    decreases PARALLEL_READERS - s.lock
  {
    hide Reachable;
    n := Step(s);
    if s.lock < PARALLEL_READERS {
      assert n.pc == [At(UwGive(s.pc[0].phase.given + 1))];
      n := GiveBack(n);
    } else {
      assert n.pc == [Idle];
    }
  }

  // UnLockRead then posts a unit it never took, and finds no entry to release.
  lemma NestedReadOutlivesWrite() returns (s: State, n: State)
    ensures Reachable(s) && s.lock == PARALLEL_READERS + 1 && s.leaked == 1
    ensures Reachable(n) && n.pc == [Exited]
  {
    RequestEntry(MODE_HARD);
    hide Required, Caught, Released, Registered, Reachable;
    s := Reading();
    s := Step(s);
    s := GiveBack(s);
    assert s == Solo(Idle, PARALLEL_READERS, [0], [], [], {0});
    s := Call(s, UrWaitSelf);
    s := Step(s);
    s := Step(s);
    s := Step(s);
    assert s == Solo(At(UrGive), PARALLEL_READERS, [], [], [], {0});
    s := Step(s);
    n := Step(s);
    n := Step(n);
  }
}

// Exclusion, conservation and progress under the counting semaphore.
module SemaphoreSafety {
  import opened LockGraphs
  import opened GraphLinks
  import opened Lists
  import opened SemaphoreSystem

  // ---- sums ----

  lemma UnitsBound(s: State, t: nat)
    requires Inv(s) && t < |s.pc|
    ensures 0 <= Units(s, t) <= PARALLEL_READERS
  {
    assert ThreadOk(s, t);
  }

  lemma {:induction false} TwoShares(s: State, t: nat, u: nat, k: nat)
    requires Inv(s) && t != u && k <= |s.pc|
    ensures UnitsUpTo(s, k) >= (if t < k then Units(s, t) else 0) + (if u < k then Units(s, u) else 0)
  {
    hide Inv, Units;
    if k > 0 {
      TwoShares(s, t, u, k - 1);
      UnitsBound(s, k - 1);
    }
  }

  // When no thread but c owns anything, c owns everything.
  lemma {:induction false} OneShare(s: State, c: nat, k: nat)
    requires k <= |s.pc| && forall u :: 0 <= u < k && u != c ==> Units(s, u) == 0
    ensures UnitsUpTo(s, k) == if c < k then Units(s, c) else 0
  {
    hide Units;
    if k > 0 {
      OneShare(s, c, k - 1);
    }
  }

  // ---- exclusion ----

  // From the return of LockWrite to the check of UnLockWrite.
  predicate InWrite(s: State, t: nat) {
    t < |s.pc| && t in s.writers
    && (s.pc[t].At? ==>
          s.pc[t].phase !in {WPostSelf, WReqWait, WReqBody, WReqPost, WWaitWrite, WCatWait, WCatBody, WCatPost}
          && !s.pc[t].phase.WCollect?)
  }

  // From the return of a LockRead outside any write section to the check of UnLockRead.
  predicate InRead(s: State, t: nat) {
    t < |s.pc| && t in s.readers && t !in s.nested
    && (s.pc[t].At? ==> s.pc[t].phase !in {RReqWait, RReqBody, RReqPost, RWaitLock, RCatWait, RCatBody, RCatPost}
                        && !s.pc[t].phase.RPost?)
  }

  lemma SectionUnits(s: State, t: nat)
    requires Inv(s)
    ensures InWrite(s, t) ==> Units(s, t) == PARALLEL_READERS
    ensures InRead(s, t) ==> Units(s, t) >= 1
  {
    if InWrite(s, t) || InRead(s, t) {
      assert ThreadOk(s, t);
    }
  }

  // Without a leak, a thread in a write section has the semaphore to itself.
  lemma WriterExcludes(s: State, t: nat, u: nat)
    requires Inv(s) && s.leaked == 0 && InWrite(s, t) && u != t
    ensures s.lock == 0 && !InWrite(s, u) && !InRead(s, u)
    ensures u < |s.pc| ==> Units(s, u) == 0
  {
    SectionUnits(s, t);
    SectionUnits(s, u);
    OwnedAtMost(s, t, u);
    if u < |s.pc| {
      UnitsBound(s, u);
    }
  }

  lemma OwnedAtMost(s: State, t: nat, u: nat)
    requires Inv(s) && t < |s.pc| && u != t
    ensures s.lock + Units(s, t) + (if u < |s.pc| then Units(s, u) else 0) <= PARALLEL_READERS + s.leaked
  {
    TwoShares(s, t, u, |s.pc|);
  }

  // Two writers never hold parts of the units against each other.
  lemma OneCollector(s: State, t: nat, u: nat)
    requires Inv(s) && t < |s.pc| && u < |s.pc| && Collecting(s, t) && Collecting(s, u)
    ensures t == u && s.writeLock == 0
  {
    var c := Collectors(s);
    assert |c| + s.writeLock == 1;
    hide Inv;
    assert t in c && u in c;
    assert |c - {t}| == |c| - 1;
    assert c - {t} == {};
  }

  // ---- when a unit leaks and the process exits ----

  lemma LeakStep(s: State, t: nat)
    requires Enabled(s, t)
    ensures |Advance(s, t).pc| == |s.pc|
    ensures Advance(s, t).leaked == s.leaked + if s.pc[t] == At(UrGive) && t in s.nested then 1 else 0
  {
    hide Registered, Caught, Released, Required, RemoveFirst;
  }

  lemma ExitStep(s: State, t: nat)
    requires Enabled(s, t) && ThreadOk(s, t)
    ensures |Advance(s, t).pc| == |s.pc|
    ensures Advance(s, t).pc[t] == Exited <==> s.pc[t] == At(UrRelBody) && t in s.nested
  {
    assert Registered(s.graph, t, LOCK) <==> LinkOf(s.graph, t, LOCK) != None;
    hide Registered, LinkOf, Caught, Released, Required, RemoveFirst;
  }

  // A unit leaks exactly at the unlock of a read whose enclosing write section is over, and the process exits exactly
  // where that thread looks for an entry to release.
  lemma LeakAndExitIff(s: State, n: State, t: nat)
    requires Inv(s) && Moves(s, n, t)
    ensures t < |s.pc| == |n.pc|
    ensures n.leaked == s.leaked + if s.pc[t] == At(UrGive) && t in s.nested then 1 else 0
    ensures n.pc[t] == Exited <==> s.pc[t] == At(UrRelBody) && t in s.nested
  {
    if !Begins(s, n, t) {
      assert ThreadOk(s, t);
      LeakStep(s, t);
      ExitStep(s, t);
      hide Advance;
    }
  }

  // Inside UnLockRead, up to the release of the entry.
  predicate InReadUnlock(s: State, t: nat) {
    t < |s.pc| && s.pc[t].At?
    && s.pc[t].phase in {UrWaitSelf, UrCheck, UrRefuse, UrPost(false), UrPost(true), UrGive, UrRelWait, UrRelBody}
  }

  // A read that began inside a write section of the same thread, after that section.
  predicate ReadOutlivesWrite(s: State, t: nat) {
    t in s.readers && t !in s.writers && t in s.nested
  }

  predicate WillLeak(s: State, t: nat)
    requires InReadUnlock(s, t)
  {
    match s.pc[t].phase
    case UrWaitSelf | UrCheck => ReadOutlivesWrite(s, t)
    case UrRefuse | UrPost(true) => false
    case _ => t in s.nested
  }

  lemma WillLeakSelf(s: State, t: nat)
    requires Enabled(s, t) && InReadUnlock(s, t)
    ensures InReadUnlock(Advance(s, t), t) ==> WillLeak(Advance(s, t), t) == WillLeak(s, t)
  {
    hide Registered, Caught, Released, Required, RemoveFirst;
  }

  // No step of any thread changes what an unlock is going to do.
  lemma WillLeakStays(s: State, n: State, t: nat, u: nat)
    requires Inv(s) && Moves(s, n, u) && InReadUnlock(s, t) && InReadUnlock(n, t)
    ensures WillLeak(n, t) == WillLeak(s, t)
  {
    if u == t {
      WillLeakSelf(s, t);
    } else {
      NextInv(s, n, u);
      assert OnlyMoved(s, n, u);
    }
  }

  lemma {:induction false} WillLeakAlong(run: seq<State>, i: nat, j: nat, t: nat)
    requires Run(run) && i <= j < |run| && forall k :: i <= k <= j ==> InReadUnlock(run[k], t)
    ensures WillLeak(run[j], t) == WillLeak(run[i], t)
  {
    hide Run, Moves, Inv, WillLeak, InReadUnlock;
    if i < j {
      WillLeakAlong(run, i, j - 1, t);
      RunInv(run, j - 1);
      var u := RunStep(run, j - 1);
      WillLeakStays(run[j - 1], run[j], t, u);
    }
  }

  // Seen from the call: an unlock leaks its unit, and then exits the process, if and only if it starts with a read
  // that outlives the write section around its beginning, whatever the other threads do in between.
  lemma UnlockLeaksIff(run: seq<State>, i: nat, j: nat, t: nat)
    requires Run(run) && i <= j < |run| - 1 && Moves(run[j], run[j + 1], t)
    requires InReadUnlock(run[i], t) && run[i].pc[t] == At(UrWaitSelf)
    requires forall k :: i <= k <= j ==> InReadUnlock(run[k], t)
    ensures run[j + 1].leaked
         == run[j].leaked + if run[j].pc[t] == At(UrGive) && ReadOutlivesWrite(run[i], t) then 1 else 0
    ensures t < |run[j + 1].pc|
    ensures run[j + 1].pc[t] == Exited <==> run[j].pc[t] == At(UrRelBody) && ReadOutlivesWrite(run[i], t)
  {
    RunInv(run, j);
    hide Run, Moves, Inv;
    WillLeakAlong(run, i, j, t);
    LeakAndExitIff(run[j], run[j + 1], t);
  }

  // No thread passes the check of UnLockWrite while it still has a read of its own.
  ghost predicate Disciplined(s: State) {
    forall t :: 0 <= t < |s.pc| && s.pc[t] == At(UwCheck) && t in s.writers ==> t !in s.readers
  }

  predicate NestsWell(s: State, t: nat)
    requires t < |s.pc|
  {
    && s.pc[t] != Exited
    && (t in s.nested && t in s.readers ==> t in s.writers)
    && (s.pc[t].At? && s.pc[t].phase in {UrPost(false), UrGive, UrRelWait, UrRelBody} ==> t !in s.nested)
  }

  ghost predicate AllNestWell(s: State) {
    forall t :: 0 <= t < |s.pc| ==> NestsWell(s, t)
  }

  lemma NestOther(s: State, n: State, t: nat, u: nat)
    requires OnlyMoved(s, n, t) && u < |s.pc| && u != t && NestsWell(s, u)
    ensures NestsWell(n, u)
  {
    hide LinksKept;
  }

  lemma NestCheck(s: State, t: nat)
    requires Enabled(s, t) && NestsWell(s, t) && ListsOk(s) && s.pc[t].phase in {RCheck, UrCheck, WCheck, UwCheck}
    requires s.pc[t] == At(UwCheck) && t in s.writers ==> t !in s.readers
    ensures |Check(s, t).pc| == |s.pc| && NestsWell(Check(s, t), t)
  {
    RemoveFirstIs(s.readers, t);
    RemoveFirstIs(s.writers, t);
    hide ListsOk, RemoveFirst;
  }

  lemma NestSelf(s: State, t: nat)
    requires Enabled(s, t) && NestsWell(s, t) && ThreadOk(s, t)
    requires ListsOk(s) && (s.pc[t] == At(UwCheck) && t in s.writers ==> t !in s.readers)
    ensures |Advance(s, t).pc| == |s.pc| && NestsWell(Advance(s, t), t)
  {
    hide ListsOk, Registered, LinkOf, Caught, Released, Required, RemoveFirst;
    if s.pc[t].phase in {RCheck, UrCheck, WCheck, UwCheck} {
      hide ThreadOk, NestsWell, Check;
      NestCheck(s, t);
    } else {
      EntryThere(s, t);
    }
  }

  lemma EntryThere(s: State, t: nat)
    requires t < |s.pc|
    ensures Registered(s.graph, t, LOCK) <==> LinkOf(s.graph, t, LOCK) != None
  {
  }

  lemma AllNestWellStays(s: State, n: State, t: nat)
    requires Inv(s) && AllNestWell(s) && Disciplined(s) && Moves(s, n, t)
    ensures AllNestWell(n)
  {
    NextInv(s, n, t);
    assert ThreadOk(s, t) && NestsWell(s, t) && OnlyMoved(s, n, t);
    if !Begins(s, n, t) {
      NestSelf(s, t);
    }
    assert NestsWell(n, t);
    hide Inv, Moves, NestsWell, OnlyMoved, Moved;
    assert |n.pc| == |s.pc|;
    forall u: nat | u < |n.pc|
      ensures NestsWell(n, u)
    {
      if u != t {
        NestOther(s, n, t, u);
      }
    }
  }

  lemma NestsWellNoLeak(s: State)
    requires Inv(s) && AllNestWell(s)
    ensures s.leaked == 0
  {
    forall t | 0 <= t < |s.pc|
      ensures !Leaking(s, t)
    {
      assert NestsWell(s, t);
    }
    assert Leakers(s) == {};
  }

  // While threads release nested reads before the enclosing write: units are conserved, nobody exits, and a writer
  // excludes everybody else.
  lemma {:induction false} DisciplinedRun(run: seq<State>, i: nat)
    requires Run(run) && i < |run| && forall k :: 0 <= k < i ==> Disciplined(run[k])
    ensures Inv(run[i]) && AllNestWell(run[i])
  {
    RunInv(run, i);
    if i == 0 {
    } else {
      hide Inv, Moves, Run, AllNestWell, Disciplined;
      DisciplinedRun(run, i - 1);
      var t := RunStep(run, i - 1);
      AllNestWellStays(run[i - 1], run[i], t);
    }
  }

  lemma DisciplinedIsSafe(run: seq<State>, i: nat, t: nat, u: nat)
    requires Run(run) && i < |run| && forall k :: 0 <= k < i ==> Disciplined(run[k])
    requires t < |run[i].pc| && u < |run[i].pc|
    ensures run[i].lock + Owned(run[i]) == PARALLEL_READERS
    ensures run[i].pc[t] != Exited
    ensures InWrite(run[i], t) && u != t ==> !InWrite(run[i], u) && !InRead(run[i], u) && run[i].lock == 0
  {
    DisciplinedRun(run, i);
    NestsWellNoLeak(run[i]);
    assert NestsWell(run[i], t);
    if InWrite(run[i], t) && u != t {
      WriterExcludes(run[i], t, u);
    }
  }

  // In every run, free units and units owned by threads make up the initial ones and those leaked; and just as many
  // have leaked as there are threads that posted one and are about to exit the process.
  lemma UnitsAccounted(run: seq<State>, i: nat)
    requires Run(run) && i < |run|
    ensures run[i].lock + Owned(run[i]) == PARALLEL_READERS + run[i].leaked
    ensures |Leakers(run[i])| == run[i].leaked
  {
    RunInv(run, i);
  }

  // ---- progress ----

  lemma SelfHolderMoves(s: State) returns (u: nat)
    requires Inv(s) && s.selfLock == 0
    ensures Enabled(s, u)
  {
    assert SelfSection(s) != {};
    u :| u in SelfSection(s);
  }

  lemma GraphHolderMoves(s: State) returns (u: nat)
    requires Inv(s) && s.graphLock == 0 && forall t :: 0 <= t < |s.pc| ==> s.pc[t] != Exited
    ensures Enabled(s, u)
  {
    assert GraphSection(s) != {};
    u :| u in GraphSection(s);
  }

  lemma InternalLocksFree(s: State)
    requires Inv(s) && forall u :: 0 <= u < |s.pc| ==> !Enabled(s, u) && s.pc[u] != Exited
    ensures s.selfLock > 0 && s.graphLock > 0
  {
    assert s.selfLock > 0 by {
      if s.selfLock == 0 {
        var u := SelfHolderMoves(s);
      }
    }
    assert s.graphLock > 0 by {
      if s.graphLock == 0 {
        var u := GraphHolderMoves(s);
      }
    }
  }

  // A thread that cannot go on owns nothing, or is the one collecting writer.
  lemma BlockedThread(s: State, t: nat)
    requires Inv(s) && (forall u :: 0 <= u < |s.pc| ==> !Enabled(s, u) && s.pc[u] != Exited)
    requires t < |s.pc| && s.pc[t] != Idle
    ensures s.lock == 0
    ensures if Collecting(s, t) then Units(s, t) < PARALLEL_READERS else Units(s, t) == 0
  {
    InternalLocksFree(s);
    assert !Enabled(s, t) && ThreadOk(s, t);
    if s.pc[t].phase == WWaitWrite {
      assert Collectors(s) != {};
      var u :| u in Collectors(s);
      assert !Enabled(s, u);
    }
  }

  // Nobody waits for units for good unless an idle thread keeps some: calls in progress never block each other.
  lemma OnlyHoldersBlock(s: State, t: nat)
    requires Inv(s) && AllNestWell(s) && (forall u :: 0 <= u < |s.pc| ==> !Enabled(s, u))
    requires t < |s.pc| && s.pc[t] != Idle
    ensures s.lock == 0 && exists u: nat :: u < |s.pc| && s.pc[u] == Idle && Units(s, u) > 0
  {
    forall u: nat | u < |s.pc|
      ensures s.pc[u] != Exited
    {
      assert NestsWell(s, u);
    }
    BlockedThread(s, t);
    NestsWellNoLeak(s);
    var c: nat := if c: nat :| c < |s.pc| && Collecting(s, c) then c else t;
    forall u: nat | u < |s.pc| && u != c && s.pc[u] != Idle
      ensures Units(s, u) == 0
    {
      BlockedThread(s, u);
      if Collecting(s, u) {
        OneCollector(s, u, c);
      }
    }
    BlockedThread(s, c);
    if forall u: nat :: u < |s.pc| && s.pc[u] == Idle ==> Units(s, u) == 0 {
      OneShare(s, c, |s.pc|);
      assert false;
    }
  }
}

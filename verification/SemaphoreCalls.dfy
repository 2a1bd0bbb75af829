// What the four operations of the semaphore have done when they return, seen over a run.
module SemaphoreCalls {
  import opened LockGraphs
  import opened GraphLinks
  import opened Lists
  import opened SemaphoreSystem
  import opened SemaphoreSafety

  // One call from its first step to its return.
  ghost predicate CallFrom(run: seq<State>, i: nat, j: nat, t: nat, phase: Phase) {
    && Run(run) && i < j < |run| && t < |run[i].pc| && run[i].pc[t] == At(phase)
    && (forall k :: i <= k < j ==> t < |run[k].pc| && run[k].pc[t].At?)
    && t < |run[j].pc| && run[j].pc[t] == Idle
  }

  predicate SameLists(s0: State, s: State, t: nat) {
    (t in s.readers <==> t in s0.readers) && SameWriter(s0, s, t) && SameNested(s0, s, t)
  }

  predicate SameWriter(s0: State, s: State, t: nat) {
    t in s.writers <==> t in s0.writers
  }

  predicate SameNested(s0: State, s: State, t: nat) {
    t in s.nested <==> t in s0.nested
  }

  // What a call of thread t that was at its first step in s0 has done by s.
  predicate Since(s0: State, s: State, t: nat)
    requires t < |s0.pc| && t < |s.pc| && s0.pc[t].At?
  {
    var r0, w0, r, w := t in s0.readers, t in s0.writers, t in s.readers, t in s.writers;
    match s0.pc[t].phase
    case RWaitSelf => SinceRead(s0, s, t)
    case UrWaitSelf => SinceUnread(s0, s, t)
    case WWaitSelf => SinceWrite(s0, s, t)
    case UwWaitSelf => SinceUnwrite(s0, s, t)
    case _ => false
  }

  predicate SinceRead(s0: State, s: State, t: nat)
    requires t < |s.pc|
  {
    var r0, w0, r, w, nest := t in s0.readers, t in s0.writers, t in s.readers, t in s.writers, t in s.nested;
    match s.pc[t]
    case Exited => false
    case Idle => r && w == w0 && if r0 then SameNested(s0, s, t) else nest == w0
    case At(phase) =>
      match phase
      case RWaitSelf | RCheck => SameLists(s0, s, t)
      case RRefuse => SameLists(s0, s, t) && r0
      case RPost(nested) => !r0 && r && w == w0 && nest == w0 && nested == w0
      case RReqWait | RReqBody | RReqPost | RWaitLock | RCatWait | RCatBody | RCatPost =>
        !r0 && r && !w0 && !w && !nest
      case _ => false
  }

  predicate SinceUnread(s0: State, s: State, t: nat)
    requires t < |s.pc|
  {
    var r0, w0, r, w := t in s0.readers, t in s0.writers, t in s.readers, t in s.writers;
    match s.pc[t]
    case Exited => r0 && !w0 && t in s0.nested
    case Idle => !r && w == w0 && SameNested(s0, s, t)
    case At(phase) =>
      match phase
      case UrWaitSelf | UrCheck => SameLists(s0, s, t)
      case UrRefuse => SameLists(s0, s, t) && !r0
      case UrPost(nested) => r0 && !r && w == w0 && SameNested(s0, s, t) && nested == w0
      case UrGive | UrRelWait | UrRelBody | UrRelPost => r0 && !r && !w0 && !w && SameNested(s0, s, t)
      case _ => false
  }

  predicate SinceWrite(s0: State, s: State, t: nat)
    requires t < |s.pc|
  {
    var r0, w0, r, w := t in s0.readers, t in s0.writers, t in s.readers, t in s.writers;
    match s.pc[t]
    case Exited => false
    case Idle => if r0 || w0 then SameLists(s0, s, t) else !r && w && SameNested(s0, s, t)
    case At(phase) =>
      match phase
      case WWaitSelf | WCheck => SameLists(s0, s, t)
      case WRefuse => SameLists(s0, s, t) && (r0 || w0)
      case WPostSelf | WReqWait | WReqBody | WReqPost | WWaitWrite | WCatWait | WCatBody | WCatPost =>
        !r0 && !w0 && !r && w && SameNested(s0, s, t)
      case WCollect(_) => !r0 && !w0 && !r && w && SameNested(s0, s, t)
      case _ => false
  }

  predicate SinceUnwrite(s0: State, s: State, t: nat)
    requires t < |s.pc|
  {
    var r0, w0, r, w := t in s0.readers, t in s0.writers, t in s.readers, t in s.writers;
    match s.pc[t]
    case Exited => false
    case Idle => r == r0 && !w && SameNested(s0, s, t)
    case At(phase) =>
      match phase
      case UwWaitSelf | UwCheck => SameLists(s0, s, t)
      case UwRefuse => SameLists(s0, s, t) && !w0
      case UwPostSelf | UwRelWait | UwRelBody | UwRelPost => w0 && r == r0 && !w && SameNested(s0, s, t)
      case UwGive(_) => w0 && r == r0 && !w && SameNested(s0, s, t)
      case _ => false
  }

  // How many steps a thread has still to make in a call, at most.
  function Rank(pc: Pc): nat {
    match pc
    case Idle => 0
    case Exited => 0
    case At(phase) =>
      match phase
      case RRefuse | UrRefuse | WRefuse | UwRefuse | RCatPost | UrRelPost | WCatPost => 1
      case RCatBody | UrRelBody | WCatBody => 2
      case RCatWait | UrRelWait | WCatWait => 3
      case RWaitLock | UrGive => 4
      case RReqPost => 5
      case UrPost(_) => 5
      case RReqBody | UrCheck => 6
      case RReqWait | UrWaitSelf => 7
      case RPost(_) => 8
      case RCheck => 9
      case RWaitSelf => 10
      case WCollect(i) => if i <= PARALLEL_READERS then 4 + PARALLEL_READERS - i else 4
      case WWaitWrite => 5 + PARALLEL_READERS
      case WReqPost => 6 + PARALLEL_READERS
      case WReqBody => 7 + PARALLEL_READERS
      case WReqWait => 8 + PARALLEL_READERS
      case WPostSelf => 9 + PARALLEL_READERS
      case WCheck => 10 + PARALLEL_READERS
      case WWaitSelf => 11 + PARALLEL_READERS
      case UwGive(i) => if i <= PARALLEL_READERS then 1 + PARALLEL_READERS - i else 1
      case UwRelPost => 2 + PARALLEL_READERS
      case UwRelBody => 3 + PARALLEL_READERS
      case UwRelWait => 4 + PARALLEL_READERS
      case UwPostSelf => 5 + PARALLEL_READERS
      case UwCheck => 6 + PARALLEL_READERS
      case UwWaitSelf => 7 + PARALLEL_READERS
  }

  lemma ReadStep(s0: State, s: State, t: nat)
    requires Enabled(s, t) && ThreadOk(s, t) && SinceRead(s0, s, t)
    ensures var n := Advance(s, t); |n.pc| == |s.pc| && SinceRead(s0, n, t) && Rank(n.pc[t]) < Rank(s.pc[t])
  {
    EntryThere(s, t);
    hide LinkOf, Registered, Caught, Released, Required, RemoveFirst;
  }

  lemma UnreadStep(s0: State, s: State, t: nat)
    requires Enabled(s, t) && ThreadOk(s, t) && ListsOk(s) && SinceUnread(s0, s, t)
    ensures var n := Advance(s, t); |n.pc| == |s.pc| && SinceUnread(s0, n, t) && Rank(n.pc[t]) < Rank(s.pc[t])
  {
    hide LinkOf, Registered, Caught, Released, Required, RemoveFirst;
    EntryThere(s, t);
    RemoveFirstIs(s.readers, t);
  }

  lemma WriteStep(s0: State, s: State, t: nat)
    requires Enabled(s, t) && ThreadOk(s, t) && SinceWrite(s0, s, t)
    ensures var n := Advance(s, t); |n.pc| == |s.pc| && SinceWrite(s0, n, t) && Rank(n.pc[t]) < Rank(s.pc[t])
  {
    hide LinkOf, Registered, Caught, Released, Required, RemoveFirst;
    EntryThere(s, t);
  }

  lemma UnwriteStep(s0: State, s: State, t: nat)
    requires Enabled(s, t) && ThreadOk(s, t) && ListsOk(s) && SinceUnwrite(s0, s, t)
    ensures var n := Advance(s, t); |n.pc| == |s.pc| && SinceUnwrite(s0, n, t) && Rank(n.pc[t]) < Rank(s.pc[t])
  {
    hide LinkOf, Registered, Caught, Released, Required, RemoveFirst;
    EntryThere(s, t);
    RemoveFirstIs(s.writers, t);
  }

  lemma OwnStep(s0: State, s: State, t: nat)
    requires Inv(s) && Enabled(s, t) && t < |s0.pc| && s0.pc[t].At? && Since(s0, s, t)
    ensures var n := Advance(s, t); |n.pc| == |s.pc| && Since(s0, n, t) && Rank(n.pc[t]) < Rank(s.pc[t])
  {
    assert ThreadOk(s, t);
    hide Inv, Advance, SinceRead, SinceUnread, SinceWrite, SinceUnwrite, ThreadOk, ListsOk, Enabled, Rank;
    match s0.pc[t].phase {
      case RWaitSelf => ReadStep(s0, s, t);
      case UrWaitSelf => UnreadStep(s0, s, t);
      case WWaitSelf => WriteStep(s0, s, t);
      case UwWaitSelf => UnwriteStep(s0, s, t);
    }
  }

  lemma OtherStep(s0: State, s: State, n: State, u: nat, t: nat)
    requires OnlyMoved(s, n, u) && t != u && t < |s.pc| && t < |s0.pc| && s0.pc[t].At? && Since(s0, s, t)
    ensures t < |n.pc| && Since(s0, n, t)
  {
    hide LinksKept;
  }

  lemma AnyStep(s0: State, s: State, n: State, u: nat, t: nat)
    requires Inv(s) && Moves(s, n, u) && t < |s.pc| && s.pc[t].At?
    requires t < |s0.pc| && s0.pc[t].At? && Since(s0, s, t)
    ensures t < |n.pc| && Since(s0, n, t)
  {
    hide Inv, Advance, Since, OnlyMoved, Enabled;
    NextInv(s, n, u);
    if u == t {
      OwnStep(s0, s, t);
    } else {
      OtherStep(s0, s, n, u, t);
    }
  }

  lemma {:induction false} SinceAlong(run: seq<State>, i: nat, k: nat, t: nat)
    requires Run(run) && i <= k < |run| && t < |run[i].pc| && run[i].pc[t].At? && Since(run[i], run[i], t)
    requires forall l :: i <= l < k ==> t < |run[l].pc| && run[l].pc[t].At?
    ensures t < |run[k].pc| && Since(run[i], run[k], t)
  {
    hide Run, Inv, Moves, Since;
    if i < k {
      SinceAlong(run, i, k - 1, t);
      RunInv(run, k - 1);
      var u := RunStep(run, k - 1);
      AnyStep(run[i], run[k - 1], run[k], u, t);
    }
  }

  lemma ThreadAt(s: State, t: nat)
    requires Inv(s) && t < |s.pc|
    ensures ThreadOk(s, t)
  {
  }

  lemma Returned(run: seq<State>, i: nat, j: nat, t: nat, phase: Phase)
    requires CallFrom(run, i, j, t, phase) && phase in {RWaitSelf, UrWaitSelf, WWaitSelf, UwWaitSelf}
    ensures Since(run[i], run[j], t) && ThreadOk(run[j], t)
  {
    hide Run, Inv, ThreadOk;
    assert Since(run[i], run[i], t);
    SinceAlong(run, i, j, t);
    RunInv(run, j);
    ThreadAt(run[j], t);
  }

  // Every step of a thread brings its call nearer to its return.
  lemma CallsEnd(run: seq<State>, i: nat, k: nat, t: nat)
    requires Run(run) && i <= k < |run| - 1 && Moves(run[k], run[k + 1], t)
    requires t < |run[i].pc| && run[i].pc[t].At? && run[i].pc[t].phase in {RWaitSelf, UrWaitSelf, WWaitSelf, UwWaitSelf}
    requires forall l :: i <= l <= k ==> t < |run[l].pc| && run[l].pc[t].At?
    ensures t < |run[k + 1].pc| && Rank(run[k + 1].pc[t]) < Rank(run[k].pc[t])
  {
    assert Since(run[i], run[i], t);
    hide Run, Inv, Advance, Since, Enabled, Rank;
    SinceAlong(run, i, k, t);
    RunInv(run, k);
    OwnStep(run[i], run[k], t);
  }

  // LockRead. A thread that was on neither list has a unit and holds the entry; inside its own write section it is
  // only put on the list; a second read changes nothing.
  lemma LockReadReturns(run: seq<State>, i: nat, j: nat, t: nat)
    requires CallFrom(run, i, j, t, RWaitSelf)
    ensures t in run[j].readers && SameWriter(run[i], run[j], t)
    ensures t !in run[i].readers && t !in run[i].writers ==>
      Units(run[j], t) == 1 && LinkOf(run[j].graph, t, LOCK) == Holding && t !in run[j].nested && InRead(run[j], t)
    ensures t !in run[i].readers && t in run[i].writers ==>
      Units(run[j], t) == PARALLEL_READERS && LinkOf(run[j].graph, t, LOCK) == Holding && t in run[j].nested
    ensures t in run[i].readers ==> SameLists(run[i], run[j], t)
  {
    Returned(run, i, j, t, RWaitSelf);
    hide Run, LinkOf;
  }

  // UnLockRead. Without a write section around it, the thread has neither unit nor entry afterwards.
  lemma UnlockReadReturns(run: seq<State>, i: nat, j: nat, t: nat)
    requires CallFrom(run, i, j, t, UrWaitSelf)
    ensures t !in run[j].readers && SameWriter(run[i], run[j], t)
    ensures if t in run[i].writers then
        Units(run[j], t) == PARALLEL_READERS && LinkOf(run[j].graph, t, LOCK) == Holding
      else
        Units(run[j], t) == 0 && LinkOf(run[j].graph, t, LOCK) == None
  {
    Returned(run, i, j, t, UrWaitSelf);
    hide Run, LinkOf;
  }

  // LockWrite. A thread that was on neither list has all the units and holds the entry.
  lemma LockWriteReturns(run: seq<State>, i: nat, j: nat, t: nat)
    requires CallFrom(run, i, j, t, WWaitSelf)
    ensures t !in run[i].readers && t !in run[i].writers ==>
      t in run[j].writers && t !in run[j].readers && InWrite(run[j], t)
      && Units(run[j], t) == PARALLEL_READERS && LinkOf(run[j].graph, t, LOCK) == Holding
    ensures t in run[i].readers || t in run[i].writers ==> SameLists(run[i], run[j], t)
  {
    Returned(run, i, j, t, WWaitSelf);
    hide Run, LinkOf;
  }

  // UnLockWrite. The thread keeps a read of its own at most, which has no unit and no entry if it began inside.
  lemma UnlockWriteReturns(run: seq<State>, i: nat, j: nat, t: nat)
    requires CallFrom(run, i, j, t, UwWaitSelf)
    ensures t !in run[j].writers && (t in run[j].readers <==> t in run[i].readers)
    ensures t in run[i].writers ==> Units(run[j], t) == 0 && LinkOf(run[j].graph, t, LOCK) == None
    ensures t !in run[i].writers ==> SameLists(run[i], run[j], t)
  {
    WriterNests(run, i, t);
    Returned(run, i, j, t, UwWaitSelf);
    hide Run, LinkOf;
  }

  lemma WriterNests(run: seq<State>, i: nat, t: nat)
    requires Run(run) && i < |run| && t < |run[i].pc| && run[i].pc[t] == At(UwWaitSelf)
    ensures t in run[i].readers && t in run[i].writers ==> t in run[i].nested
  {
    hide Run, LinkOf;
    RunInv(run, i);
    ThreadAt(run[i], t);
  }
}
